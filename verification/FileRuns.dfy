/** Runs of overwrites and appends on the files of one volume: no operation on one file harms another, no
    cluster is lost, and a volume of files behaves like a list of byte strings. */
module FileRuns {
  import opened Basics
  import opened Bytes
  import opened FatTable
  import opened FileData
  import opened FileWrite
  import opened FileAppend
  import FatRuns
  import FileOps

  /** The chain and the size that the entry of a file names: the entry in memory while the file is open. */
  datatype File = File(cs: seq<nat>, size: nat)

  /** A volume with the chains of its directories and its files. */
  datatype Disk = Disk(v: Vol, dirs: seq<seq<nat>>, files: seq<File>)

  datatype Op = Write(f: nat, src: seq<byte>) | Append(f: nat, src: seq<byte>)

  /** All chains, those of the directories first. */
  ghost function Chains(d: Disk): (r: seq<seq<nat>>)
    ensures |r| == |d.dirs| + |d.files|
    ensures forall i :: 0 <= i < |d.dirs| ==> r[i] == d.dirs[i]
    ensures forall f :: 0 <= f < |d.files| ==> r[|d.dirs| + f] == d.files[f].cs
  {
    d.dirs + seq(|d.files|, f requires 0 <= f < |d.files| => d.files[f].cs)
  }

  /** The file is on a chain, of which it has at least one cluster if it has bytes. */
  ghost predicate Stored(v: Vol, n: nat, cl: nat, file: File) {
    Appendable(v, n, cl, file.cs, file.size)
  }

  /** Every cluster in use is on one of the chains. */
  ghost predicate NoLeak(d: Disk, n: nat)
    requires Shape(d.v.fat, n)
  {
    forall c :: 2 <= c < n && d.v.fat[c] != FREE && d.v.fat[c] != BAD ==> FatRuns.OnSome(Chains(d), c)
  }

  ghost predicate Inv(d: Disk, n: nat, cl: nat) {
    && Sound(d.v, n, cl) && CountExact(d.v, n)
    && (forall i :: 0 <= i < |d.dirs| ==> IsChain(d.v.fat, n, d.dirs[i]))
    && (forall f :: 0 <= f < |d.files| ==> Stored(d.v, n, cl, d.files[f]))
    && FatRuns.AllDisjoint(Chains(d)) && NoLeak(d, n)
  }

  /** The allocations that an operation makes on a volume with room. */
  function Need(file: File, cl: nat, op: Op): nat
    requires 0 < cl
  {
    match op
    case Write(_, src) => FileOps.More(|src|, |file.cs|, cl)
    case Append(_, src) => FileOps.More(AppendAt(|file.cs|, file.size, cl) + |src|, |file.cs|, cl)
  }

  /** The operation names a file, and each of its allocations begins with a safe hint. */
  ghost predicate Enabled(d: Disk, n: nat, cl: nat, op: Op) {
    && Sound(d.v, n, cl) && op.f < |d.files| && Stored(d.v, n, cl, d.files[op.f])
    && Room(d.v, n, Need(d.files[op.f], cl, op))
  }

  ghost function ResultOf(d: Disk, n: nat, cl: nat, op: Op): Result
    requires Enabled(d, n, cl, op)
  {
    var file := d.files[op.f];
    match op
    case Write(_, src) => WriteFile(d.v, n, cl, file.cs, file.size, src)
    case Append(_, src) => AppendFile(d.v, n, cl, file.cs, file.size, src)
  }

  /** The clusters that are not on a directory's chain hold the same bytes. */
  ghost predicate SameOff(data: seq<seq<byte>>, data': seq<seq<byte>>, dirs: seq<seq<nat>>) {
    |data'| == |data| && forall c :: 0 <= c < |data| && !FatRuns.OnSome(dirs, c) ==> data'[c] == data[c]
  }

  /** One operation: table, hint, count and the clusters of files are those of its result; what is written to
      directories is left open. */
  ghost predicate Next(d: Disk, n: nat, cl: nat, op: Op, d': Disk) {
    && Enabled(d, n, cl, op)
    && var r := ResultOf(d, n, cl, op);
       && d'.v == r.v.(data := d'.v.data) && Sound(d'.v, n, cl) && SameOff(r.v.data, d'.v.data, d.dirs)
       && d'.dirs == d.dirs && d'.files == d.files[op.f := File(r.cs, r.size)]
  }

  // ---------------------------------------------------------------- clusters in use

  lemma NextStateUsed(v: Vol, n: nat, cl: nat, ch: seq<nat>, i: nat, src: seq<byte>, c: nat)
    requires Ready(v, n, cl, ch, i) && Continues(v, n, cl, ch, i, src)
    ensures var (v1, ch1) := NextState(v, n, cl, ch, i, src);
            c < |v1.fat| == |v.fat| && v1.fat[c] != FREE ==> v.fat[c] != FREE || c in ch1
  {
    assert ch[|ch| - 1] in ch;
  }

  /** The write loop takes only clusters that it puts on the chain. */
  lemma {:induction false} WriteLoopUsed(v: Vol, n: nat, cl: nat, ch: seq<nat>, i: nat, src: seq<byte>, c: nat)
    requires Ready(v, n, cl, ch, i) && 0 < |src|
    ensures var r := WriteLoop(v, n, cl, ch, i, src);
            && |r.v.fat| == |v.fat| && ch <= r.ch
            && (c < |v.fat| && r.v.fat[c] != FREE ==> v.fat[c] != FREE || c in r.ch)
    decreases |src|
  {
    WriteLoopUnfold(v, n, cl, ch, i, src);
    WriteLoopGrows(v, n, cl, ch, i, src);
    WriteLoopFrame(v, n, cl, ch, i, src, c);
    hide WriteLoop, Ready, Grown, NextState;
    ReadyShape(v, n, cl, ch, i);
    if Continues(v, n, cl, ch, i, src) {
      var (v1, ch1) := NextState(v, n, cl, ch, i, src);
      NextStateUsed(v, n, cl, ch, i, src, c);
      NextStateFrame(v, n, cl, ch, i, src, c);
      WriteLoopUsed(v1, n, cl, ch1, i + 1, src[cl..], c);
    }
  }

  /** What one operation on the file with chain `cs` does to the volume. */
  ghost predicate Effect(v: Vol, n: nat, cl: nat, cs: seq<nat>, r: Result) {
    && Sound(v, n, cl) && Sound(r.v, n, cl) && |r.v.fat| == |v.fat| && (CountExact(v, n) ==> CountExact(r.v, n))
    && Appendable(r.v, n, cl, r.cs, r.size)
    && (forall c :: 2 <= c < n && v.fat[c] != FREE && c !in cs ==>
          r.v.fat[c] == v.fat[c] && r.v.data[c] == v.data[c] && c !in r.cs)
    && (forall c :: 2 <= c < n && r.v.fat[c] != FREE ==> c in r.cs || (v.fat[c] != FREE && c !in cs))
  }

  lemma BeginUsed(v: Vol, n: nat, cl: nat, cs: seq<nat>, c: nat)
    requires Chained(v, n, cl, cs)
    ensures var (v0, ch) := Begin(v, n, cs);
            && cs <= ch && |v0.fat| == |v.fat| && (ch == [] ==> v0 == v) && (cs != [] ==> v0 == v)
            && (c < |v.fat| && v0.fat[c] != FREE ==> v.fat[c] != FREE || c in ch)
  {
  }

  lemma TrimUsed(v: Vol, n: nat, ch: seq<nat>, k: nat, c: nat)
    requires Shape(v.fat, n) && IsChain(v.fat, n, ch) && 1 <= k <= |ch| && c < n
    ensures var v' := Trim(v, n, ch, k);
            |v'.fat| == |v.fat| && (v'.fat[c] != FREE ==> if c in ch then c in ch[..k] else v.fat[c] != FREE)
  {
    TrimEffect(v, n, ch, k);
    assert ch == ch[..k] + ch[k..];
    hide Trim, IsChain;
  }

  lemma FinishUsed(w: FileWrite.Outcome, n: nat, cl: nat, size: nat, total: nat, c: nat)
    requires Ready(w.v, n, cl, w.ch, w.at) && c < n
    ensures var r := Finish(w, n, cl, size, total);
            && r.cs != [] && |r.v.fat| == |w.v.fat|
            && (r.v.fat[c] != FREE ==> if c in w.ch then c in r.cs else w.v.fat[c] != FREE)
  {
    ReadyShape(w.v, n, cl, w.ch, w.at);
    ChainOfReady(w.v, n, cl, w.ch, w.at);
    TrimUsed(w.v, n, w.ch, w.at + 1, c);
    hide Trim, IsChain, Ready;
  }

  lemma ChainOfReady(v: Vol, n: nat, cl: nat, ch: seq<nat>, i: nat)
    requires Ready(v, n, cl, ch, i)
    ensures IsChain(v.fat, n, ch) && i < |ch|
  {
  }

  /** After an overwrite the clusters in use are those of the file and those that others use. */
  lemma WriteUsed(v: Vol, n: nat, cl: nat, cs: seq<nat>, size: nat, src: seq<byte>, c: nat)
    requires Appendable(v, n, cl, cs, size) && c < n
    ensures var r := WriteFile(v, n, cl, cs, size, src);
            && (0 < r.size ==> r.cs != [])
            && |r.v.fat| == |v.fat| && (r.v.fat[c] != FREE ==> c in r.cs || (v.fat[c] != FREE && c !in cs))
  {
    BeginReady(v, n, cl, cs);
    BeginUsed(v, n, cl, cs, c);
    var (v0, ch) := Begin(v, n, cs);
    if src == [] {
      if cs != [] && size != 0 { TrimUsed(v, n, cs, 1, c); }
    } else if ch != [] {
      var w := WriteLoop(v0, n, cl, ch, 0, src);
      assert WriteFile(v, n, cl, cs, size, src) == Finish(w, n, cl, size, |src|);
      assert Ready(v0, n, cl, ch, 0) && c < |v.fat|;
      hide *;
      WriteLoopUsed(v0, n, cl, ch, 0, src, c);
      FinishUsed(w, n, cl, size, |src|, c);
    }
  }

  lemma TailUsed(v: Vol, n: nat, cl: nat, cs: seq<nat>, size: nat, c: nat)
    requires Appendable(v, n, cl, cs, size)
    ensures var (v1, ch) := Tail(v, n, cl, cs, size);
            && |v1.fat| == |v.fat| && (ch == [] ==> v1 == v) && (ch != [] ==> cs <= ch)
            && (c < |v.fat| && v1.fat[c] != FREE ==> v.fat[c] != FREE || c in ch)
  {
    BeginReady(v, n, cl, cs);
    BeginUsed(v, n, cl, cs, c);
  }

  /** After an append, too. */
  lemma AppendUsed(v: Vol, n: nat, cl: nat, cs: seq<nat>, size: nat, src: seq<byte>, c: nat)
    requires Appendable(v, n, cl, cs, size) && c < n
    ensures var r := AppendFile(v, n, cl, cs, size, src);
            && (0 < r.size ==> r.cs != [])
            && |r.v.fat| == |v.fat| && (r.v.fat[c] != FREE ==> c in r.cs || (v.fat[c] != FREE && c !in cs))
  {
    TailReady(v, n, cl, cs, size);
    TailUsed(v, n, cl, cs, size, c);
    var (v1, ch) := Tail(v, n, cl, cs, size);
    assert c < |v.fat|;
    if src != [] && ch != [] {
      var v2, ch2, i, patch, w := AppendLoop(v, n, cl, cs, size, src);
      hide *;
      AppendingResult(v, n, cl, cs, size, src, v2, ch2, i, patch, w);
      AppendingTail(v, n, cl, cs, size, src, v2, ch2, i, patch, w);
      WriteLoopUsed(v1, n, cl, ch, i, patch, c);
    } else {
      hide Tail;
    }
  }

  lemma WriteEffect(v: Vol, n: nat, cl: nat, cs: seq<nat>, size: nat, src: seq<byte>)
    requires Appendable(v, n, cl, cs, size)
    ensures Effect(v, n, cl, cs, WriteFile(v, n, cl, cs, size, src))
  {
    var r := WriteFile(v, n, cl, cs, size, src);
    hide WriteFile, CountExact, IsChain;
    WriteFileSafe(v, n, cl, cs, size, src);
    WriteUsed(v, n, cl, cs, size, src, 0);
    forall c | 2 <= c < n ensures r.v.fat[c] != FREE ==> c in r.cs || (v.fat[c] != FREE && c !in cs) {
      WriteUsed(v, n, cl, cs, size, src, c);
    }
    forall c | 2 <= c < n && v.fat[c] != FREE && c !in cs
      ensures r.v.fat[c] == v.fat[c] && r.v.data[c] == v.data[c] && c !in r.cs
    {
      WriteFileFrame(v, n, cl, cs, size, src, c);
    }
  }

  lemma AppendEffect(v: Vol, n: nat, cl: nat, cs: seq<nat>, size: nat, src: seq<byte>)
    requires Appendable(v, n, cl, cs, size)
    ensures Effect(v, n, cl, cs, AppendFile(v, n, cl, cs, size, src))
  {
    var r := AppendFile(v, n, cl, cs, size, src);
    hide AppendFile, CountExact, IsChain;
    AppendFileSafe(v, n, cl, cs, size, src);
    AppendUsed(v, n, cl, cs, size, src, 0);
    forall c | 2 <= c < n ensures r.v.fat[c] != FREE ==> c in r.cs || (v.fat[c] != FREE && c !in cs) {
      AppendUsed(v, n, cl, cs, size, src, c);
    }
    forall c | 2 <= c < n && v.fat[c] != FREE && c !in cs
      ensures r.v.fat[c] == v.fat[c] && r.v.data[c] == v.data[c] && c !in r.cs
    {
      AppendFileFrame(v, n, cl, cs, size, src, c);
    }
  }

  // ---------------------------------------------------------------- one step

  lemma StepEffect(d: Disk, n: nat, cl: nat, op: Op)
    requires Enabled(d, n, cl, op)
    ensures Effect(d.v, n, cl, d.files[op.f].cs, ResultOf(d, n, cl, op))
  {
    hide WriteFile, AppendFile, Effect, Appendable;
    var file := d.files[op.f];
    match op
    case Write(_, src) => WriteEffect(d.v, n, cl, file.cs, file.size, src);
    case Append(_, src) => AppendEffect(d.v, n, cl, file.cs, file.size, src);
  }

  /** Another chain is kept, with the bytes on it. */
  lemma OtherKept(v: Vol, n: nat, cl: nat, cs: seq<nat>, r: Result, ws: seq<nat>)
    requires Effect(v, n, cl, cs, r) && Chained(v, n, cl, ws) && Disjoint(ws, cs)
    ensures Chained(r.v, n, cl, ws) && Disjoint(ws, r.cs) && Concat(r.v.data, ws) == Concat(v.data, ws)
  {
    if ws != [] {
      forall c | c in ws
        ensures 2 <= c < n && r.v.fat[c] == v.fat[c] && r.v.data[c] == v.data[c] && c !in r.cs
      {
        UsedOnChain(v.fat, n, ws, c);
      }
      assert forall i :: 0 <= i < |ws| ==> ws[i] in ws;
      hide Concat;
      ChainFrame(v.fat, r.v.fat, n, ws);
      ConcatFrame(v.data, r.v.data, ws);
    }
  }

  lemma ChainHolds(d: Disk, n: nat, cl: nat, i: nat)
    requires Inv(d, n, cl) && i < |Chains(d)|
    ensures Chained(d.v, n, cl, Chains(d)[i])
    ensures forall j: nat :: j < |Chains(d)| && j != i ==> Disjoint(Chains(d)[j], Chains(d)[i])
  {
    if i < |d.dirs| {
      assert IsChain(d.v.fat, n, d.dirs[i]);
    } else {
      assert Stored(d.v, n, cl, d.files[i - |d.dirs|]);
    }
  }

  /** A step replaces the chain of the file it names, and keeps every other. */
  lemma StepChains(d: Disk, n: nat, cl: nat, op: Op, d': Disk, i: nat)
    requires Inv(d, n, cl) && Next(d, n, cl, op, d') && i < |Chains(d)|
    ensures var r, at := ResultOf(d, n, cl, op), |d.dirs| + op.f;
            && Chains(d') == Chains(d)[at := r.cs]
            && (i != at ==>
                  && Chained(r.v, n, cl, Chains(d)[i]) && Disjoint(Chains(d)[i], r.cs)
                  && Concat(r.v.data, Chains(d)[i]) == Concat(d.v.data, Chains(d)[i]))
  {
    hide *;
    NextIs(d, n, cl, op, d');
    var r, at := ResultOf(d, n, cl, op), |d.dirs| + op.f;
    ChainsUpdate(d, d', op.f, File(r.cs, r.size));
    if i != at {
      StepEffect(d, n, cl, op);
      ChainHolds(d, n, cl, i);
      ChainHolds(d, n, cl, at);
      OtherKept(d.v, n, cl, Chains(d)[at], r, Chains(d)[i]);
    }
  }

  lemma ChainsUpdate(d: Disk, d': Disk, f: nat, file: File)
    requires f < |d.files| && d'.dirs == d.dirs && d'.files == d.files[f := file]
    ensures Chains(d') == Chains(d)[|d.dirs| + f := file.cs] && Chains(d)[|d.dirs| + f] == d.files[f].cs
  {
  }

  /** Bytes on a chain that is no directory's. */
  lemma OffDirectories(data: seq<seq<byte>>, data': seq<seq<byte>>, dirs: seq<seq<nat>>, ws: seq<nat>)
    requires SameOff(data, data', dirs) && forall i :: 0 <= i < |dirs| ==> Disjoint(dirs[i], ws)
    ensures Concat(data', ws) == Concat(data, ws)
  {
    forall i | 0 <= i < |ws| ensures Get(data', ws[i]) == Get(data, ws[i]) {
      assert ws[i] in ws && !FatRuns.OnSome(dirs, ws[i]);
    }
    hide Concat;
    ConcatFrame(data', data, ws);
  }

  lemma StepDisjoint(d: Disk, n: nat, cl: nat, op: Op, d': Disk)
    requires Inv(d, n, cl) && Next(d, n, cl, op, d')
    ensures FatRuns.AllDisjoint(Chains(d'))
  {
    var r, at := ResultOf(d, n, cl, op), |d.dirs| + op.f;
    hide ResultOf, Concat, Chained, Inv;
    assert at < |Chains(d)|;
    StepChains(d, n, cl, op, d', at);
    forall i, j | 0 <= i < |Chains(d')| && 0 <= j < |Chains(d')| && i != j
      ensures Disjoint(Chains(d')[i], Chains(d')[j])
    {
      hide Next;
      StepChains(d, n, cl, op, d', i);
      StepChains(d, n, cl, op, d', j);
      ChainHolds(d, n, cl, j);
    }
  }

  lemma StepNoLeak(d: Disk, n: nat, cl: nat, op: Op, d': Disk)
    requires Inv(d, n, cl) && Next(d, n, cl, op, d')
    ensures Sound(d'.v, n, cl) && CountExact(d'.v, n) && NoLeak(d', n)
  {
    hide *;
    NextIs(d, n, cl, op, d');
    var r, at := ResultOf(d, n, cl, op), |d.dirs| + op.f;
    StepEffect(d, n, cl, op);
    ChainsUpdate(d, d', op.f, File(r.cs, r.size));
    UsedKept(d, n, cl, at, r, d');
  }

  lemma UsedKept(d: Disk, n: nat, cl: nat, at: nat, r: Result, d': Disk)
    requires Inv(d, n, cl) && at < |Chains(d)| && Chains(d') == Chains(d)[at := r.cs]
    requires Effect(d.v, n, cl, Chains(d)[at], r) && d'.v == r.v.(data := d'.v.data) && Sound(d'.v, n, cl)
    ensures CountExact(d'.v, n) && NoLeak(d', n)
  {
    hide Appendable, FatRuns.AllDisjoint, Chains;
    forall c | 2 <= c < n && d'.v.fat[c] != FREE && d'.v.fat[c] != BAD ensures FatRuns.OnSome(Chains(d'), c) {
      if c in r.cs {
        assert Chains(d')[at] == r.cs;
      } else {
        assert FatRuns.OnSome(Chains(d), c);
        var i :| 0 <= i < |Chains(d)| && c in Chains(d)[i];
        assert Chains(d')[i] == Chains(d)[i];
      }
    }
  }

  lemma StepStores(d: Disk, n: nat, cl: nat, op: Op, d': Disk, g: nat)
    requires Inv(d, n, cl) && Next(d, n, cl, op, d') && g < |d.files|
    ensures |d'.files| == |d.files| && Stored(d'.v, n, cl, d'.files[g])
    ensures var r := ResultOf(d, n, cl, op);
            if g == op.f then d'.files[g] == File(r.cs, r.size) && Concat(d'.v.data, r.cs) == Concat(r.v.data, r.cs)
            else d'.files[g] == d.files[g] &&
                 Concat(d'.v.data, d.files[g].cs) == Concat(d.v.data, d.files[g].cs)
  {
    hide *;
    NextIs(d, n, cl, op, d');
    var r, at := ResultOf(d, n, cl, op), |d.dirs| + g;
    StepEffect(d, n, cl, op);
    EffectStores(d.v, n, cl, d.files[op.f].cs, r);
    StoredIn(d, n, cl, g);
    StepChains(d, n, cl, op, d', at);
    StepDisjoint(d, n, cl, op, d');
    ApartFromDirs(d', g);
    OffDirectories(r.v.data, d'.v.data, d.dirs, d'.files[g].cs);
    StoredStays(d.v, r.v, d'.v, n, cl, d'.files[g]);
  }

  lemma NextIs(d: Disk, n: nat, cl: nat, op: Op, d': Disk)
    requires Next(d, n, cl, op, d')
    ensures Enabled(d, n, cl, op) && op.f < |d.files|
    ensures var r := ResultOf(d, n, cl, op);
            && d'.v == r.v.(data := d'.v.data) && Sound(d'.v, n, cl) && SameOff(r.v.data, d'.v.data, d.dirs)
            && d'.dirs == d.dirs && d'.files == d.files[op.f := File(r.cs, r.size)]
  {
  }

  lemma NextIf(d: Disk, n: nat, cl: nat, op: Op, d': Disk)
    requires Enabled(d, n, cl, op) && Sound(d'.v, n, cl)
    requires var r := ResultOf(d, n, cl, op);
             && d'.v == r.v.(data := d'.v.data) && SameOff(r.v.data, d'.v.data, d.dirs)
             && d'.dirs == d.dirs && d'.files == d.files[op.f := File(r.cs, r.size)]
    ensures Next(d, n, cl, op, d')
  {
  }

  lemma SameOffSelf(data: seq<seq<byte>>, dirs: seq<seq<nat>>)
    ensures SameOff(data, data, dirs)
  {
  }

  lemma EffectStores(v: Vol, n: nat, cl: nat, cs: seq<nat>, r: Result)
    requires Effect(v, n, cl, cs, r)
    ensures Stored(r.v, n, cl, File(r.cs, r.size)) && Chained(r.v, n, cl, r.cs)
  {
  }

  lemma StoredIn(d: Disk, n: nat, cl: nat, g: nat)
    requires Inv(d, n, cl) && g < |d.files|
    ensures Stored(d.v, n, cl, d.files[g])
  {
  }

  lemma ApartFromDirs(d: Disk, g: nat)
    requires FatRuns.AllDisjoint(Chains(d)) && g < |d.files|
    ensures forall i :: 0 <= i < |d.dirs| ==> Disjoint(d.dirs[i], d.files[g].cs)
  {
    forall i | 0 <= i < |d.dirs| ensures Disjoint(d.dirs[i], d.files[g].cs) {
      assert Disjoint(Chains(d)[i], Chains(d)[|d.dirs| + g]);
    }
  }

  lemma StoredStays(v: Vol, v1: Vol, v': Vol, n: nat, cl: nat, file: File)
    requires Stored(v, n, cl, file) || Stored(v1, n, cl, file)
    requires Chained(v1, n, cl, file.cs) && v'.fat == v1.fat && Sound(v', n, cl)
    ensures Stored(v', n, cl, file)
  {
  }

  /** Whatever an operation does, also when the volume fills up: every directory and every file is on a chain of
      its own, every cluster in use is on one of them, and a known free count is exact. */
  lemma StepKeeps(d: Disk, n: nat, cl: nat, op: Op, d': Disk)
    requires Inv(d, n, cl) && Next(d, n, cl, op, d')
    ensures Inv(d', n, cl)
  {
    StepNoLeak(d, n, cl, op, d');
    StepDisjoint(d, n, cl, op, d');
    forall g: nat | g < |d'.files| ensures Stored(d'.v, n, cl, d'.files[g]) { StepStores(d, n, cl, op, d', g); }
    hide ResultOf, Stored, NoLeak, CountExact, Enabled, FatRuns.AllDisjoint;
    forall i: nat | i < |d'.dirs| ensures IsChain(d'.v.fat, n, d'.dirs[i]) {
      assert IsChain(d.v.fat, n, d.dirs[i]);
      StepChains(d, n, cl, op, d', i);
      assert Chained(ResultOf(d, n, cl, op).v, n, cl, d.dirs[i]);
    }
  }

  // ---------------------------------------------------------------- every run

  /** The operations are made one after the other, and `trace` are the states before, between and after them. */
  ghost predicate IsRun(trace: seq<Disk>, n: nat, cl: nat, ops: seq<Op>) {
    && |trace| == |ops| + 1 && Inv(trace[0], n, cl)
    && (forall k :: 0 <= k < |ops| ==> Next(trace[k], n, cl, ops[k], trace[k + 1]))
  }

  /** Every state of every run, however full the volume gets, satisfies the invariant. */
  lemma {:induction false} RunKeeps(trace: seq<Disk>, n: nat, cl: nat, ops: seq<Op>, k: nat)
    requires IsRun(trace, n, cl, ops) && k < |trace|
    ensures Inv(trace[k], n, cl) && trace[k].dirs == trace[0].dirs && |trace[k].files| == |trace[0].files|
    decreases k
  {
    hide Inv, Next;
    if k > 0 {
      RunKeeps(trace, n, cl, ops, k - 1);
      assert Next(trace[k - 1], n, cl, ops[k - 1], trace[k]);
      NextIs(trace[k - 1], n, cl, ops[k - 1], trace[k]);
      StepKeeps(trace[k - 1], n, cl, ops[k - 1], trace[k]);
    }
  }

  /** Under the invariant an operation is possible exactly if it names a file and each of its allocations
      begins with a safe hint. */
  lemma EnabledIff(d: Disk, n: nat, cl: nat, op: Op)
    requires Inv(d, n, cl)
    ensures 0 < cl
    ensures Enabled(d, n, cl, op) <==>
            op.f < |d.files| && HintsStaySafe(d.v, n, Need(d.files[op.f], cl, op))
  {
    if op.f < |d.files| {
      assert Stored(d.v, n, cl, d.files[op.f]);
      RoomIff(d.v, n, Need(d.files[op.f], cl, op));
      hide Room, HintsStaySafe, Need;
    }
  }

  /** In every state of every run each cluster in use is on exactly one chain, a directory's or a file's, and a
      known free count is exact. */
  lemma OneOwner(trace: seq<Disk>, n: nat, cl: nat, ops: seq<Op>, k: nat, c: nat) returns (i: nat)
    requires IsRun(trace, n, cl, ops) && k < |trace| && 2 <= c < n <= |trace[k].v.fat|
    requires trace[k].v.fat[c] != FREE && trace[k].v.fat[c] != BAD
    ensures var chains := Chains(trace[k]);
            && i < |chains| && c in chains[i] && IsChain(trace[k].v.fat, n, chains[i])
            && (forall j :: 0 <= j < |chains| && c in chains[j] ==> j == i)
            && CountExact(trace[k].v, n)
  {
    RunKeeps(trace, n, cl, ops, k);
    var d := trace[k];
    hide IsRun;
    i :| 0 <= i < |Chains(d)| && c in Chains(d)[i];
    ChainHolds(d, n, cl, i);
  }

  /** A file that no operation of a run names keeps its chain, its size and its content. */
  lemma {:induction false} RunFrame(trace: seq<Disk>, n: nat, cl: nat, ops: seq<Op>, k: nat, g: nat)
    requires IsRun(trace, n, cl, ops) && k < |trace| && g < |trace[0].files|
    requires forall i :: 0 <= i < k ==> ops[i].f != g
    ensures g < |trace[k].files| && trace[k].files[g] == trace[0].files[g] && Reads(trace[k], g) == Reads(trace[0], g)
    decreases k
  {
    hide Inv, Next, Concat, Stored;
    if k > 0 {
      RunKeeps(trace, n, cl, ops, k - 1);
      RunFrame(trace, n, cl, ops, k - 1, g);
      assert Next(trace[k - 1], n, cl, ops[k - 1], trace[k]);
      NextIs(trace[k - 1], n, cl, ops[k - 1], trace[k]);
      StepStores(trace[k - 1], n, cl, ops[k - 1], trace[k], g);
    }
  }

  // ---------------------------------------------------------------- what the directory records

  function FirstOf(cs: seq<nat>): nat {
    if cs == [] then 0 else cs[0]
  }

  /** The first cluster that the entry in the directory names after an operation, which is written back only
      when all the data was. */
  function Recorded(cs: seq<nat>, r: Result, total: nat): nat {
    if r.written == total then FirstOf(r.cs) else FirstOf(cs)
  }

  /** How the chain of a result begins. */
  ghost predicate Begins(cs: seq<nat>, size: nat, total: nat, r: Result) {
    && (cs != [] ==> r.cs != [] && r.cs[0] == cs[0])
    && (cs == [] ==> (r.cs != [] <==> 0 < r.written)) && (r.cs != [] ==> 2 <= r.cs[0])
    && r.written <= total && (r.written < total ==> r.size == size)
  }

  lemma WriteBegins(v: Vol, n: nat, cl: nat, cs: seq<nat>, size: nat, src: seq<byte>)
    requires Chained(v, n, cl, cs)
    ensures Begins(cs, size, |src|, WriteFile(v, n, cl, cs, size, src))
  {
    var r := WriteFile(v, n, cl, cs, size, src);
    WriteFileSafe(v, n, cl, cs, size, src);
    BeginReady(v, n, cl, cs);
    var (v0, ch) := Begin(v, n, cs);
    if src != [] && ch != [] {
      var w := WriteLoop(v0, n, cl, ch, 0, src);
      assert r == Finish(w, n, cl, size, |src|) && Ready(v0, n, cl, ch, 0);
      assert ch == cs || cs == [];
      assert r.cs != [] ==> IsChain(r.v.fat, n, r.cs);
      hide WriteFile, WriteLoop, Begin, CountExact, Ready;
      WriteLoopGrows(v0, n, cl, ch, 0, src);
      FinishFrame(w, n, cl, size, |src|);
      FinishUsed(w, n, cl, size, |src|, 0);
    }
  }

  lemma AppendBegins(v: Vol, n: nat, cl: nat, cs: seq<nat>, size: nat, src: seq<byte>)
    requires Appendable(v, n, cl, cs, size)
    ensures Begins(cs, size, |src|, AppendFile(v, n, cl, cs, size, src))
  {
    var r := AppendFile(v, n, cl, cs, size, src);
    AppendFileSafe(v, n, cl, cs, size, src);
    TailReady(v, n, cl, cs, size);
    var (v1, ch) := Tail(v, n, cl, cs, size);
    assert r.cs != [] ==> IsChain(r.v.fat, n, r.cs);
    if src != [] && ch != [] {
      var v2, ch2, i, patch, w := AppendLoop(v, n, cl, cs, size, src);
      AppendingResult(v, n, cl, cs, size, src, v2, ch2, i, patch, w);
      AppendingLoop(v, n, cl, cs, size, src, v2, ch2, i, patch, w);
      AppendingTail(v, n, cl, cs, size, src, v2, ch2, i, patch, w);
      AppendedSome(v, n, cl, cs, size, src, v2, ch2, i, patch, w);
      hide AppendFile, WriteLoop, Tail, Overwritten, Appending, CountExact, Ready;
    } else {
      hide Tail, IsChain;
    }
  }

  /** An append that has a cluster to write to writes something. */
  lemma AppendedSome(v: Vol, n: nat, cl: nat, cs: seq<nat>, size: nat, src: seq<byte>,
                     v1: Vol, ch: seq<nat>, i: nat, patch: seq<byte>, w: FileWrite.Outcome)
    requires Appending(v, n, cl, cs, size, src, v1, ch, i, patch, w)
    ensures 0 < AppendFile(v, n, cl, cs, size, src).written
  {
    AppendingResult(v, n, cl, cs, size, src, v1, ch, i, patch, w);
    WriteAtLeast(v1, n, cl, ch, i, patch);
    hide AppendFile, WriteLoop, Tail, Appendable, Ready;
  }

  /** The directory loses the chain of a file if and only if the file had none and only a part of its data
      could be written. */
  lemma LostChainIff(d: Disk, n: nat, cl: nat, op: Op)
    requires Enabled(d, n, cl, op)
    ensures var r, cs := ResultOf(d, n, cl, op), d.files[op.f].cs;
            && (Recorded(cs, r, |op.src|) != FirstOf(r.cs) <==> cs == [] && 0 < r.written < |op.src|)
            && (r.written < |op.src| ==> r.size == d.files[op.f].size)
  {
    StepBegins(d, n, cl, op);
    hide ResultOf, Enabled;
  }

  lemma StepBegins(d: Disk, n: nat, cl: nat, op: Op)
    requires Enabled(d, n, cl, op)
    ensures Begins(d.files[op.f].cs, d.files[op.f].size, |op.src|, ResultOf(d, n, cl, op))
  {
    var file := d.files[op.f];
    hide WriteFile, AppendFile, Chained, Begins;
    match op
    case Write(_, src) => WriteBegins(d.v, n, cl, file.cs, file.size, src);
    case Append(_, src) => AppendBegins(d.v, n, cl, file.cs, file.size, src);
  }

  // ---------------------------------------------------------------- files as byte strings

  ghost function Reads(d: Disk, f: nat): seq<byte>
    requires f < |d.files|
  {
    Content(d.v.data, d.files[f].cs, d.files[f].size)
  }

  /** What a reader of each file gets. */
  ghost function Contents(d: Disk): (r: seq<seq<byte>>)
    ensures |r| == |d.files| && forall f :: 0 <= f < |r| ==> r[f] == Reads(d, f)
  {
    seq(|d.files|, f requires 0 <= f < |d.files| => Reads(d, f))
  }

  /** Overwriting the front of a byte string, appending to it. */
  function Edit(contents: seq<seq<byte>>, op: Op): seq<seq<byte>> {
    if op.f < |contents| then contents[op.f := Edited(contents[op.f], op)] else contents
  }

  function EditAll(contents: seq<seq<byte>>, ops: seq<Op>): seq<seq<byte>>
    decreases |ops|
  {
    if ops == [] then contents else Edit(EditAll(contents, ops[..|ops| - 1]), ops[|ops| - 1])
  }

  /** The chains of all files match their sizes. */
  ghost predicate AllMatch(d: Disk, cl: nat)
    requires 0 < cl
  {
    forall f :: 0 <= f < |d.files| ==> Matches(|d.files[f].cs|, d.files[f].size, cl)
  }

  /** There is something to write, and an overwrite needs no fewer clusters than the content. */
  predicate Grows(contents: seq<seq<byte>>, cl: nat, op: Op) {
    && 0 < cl && op.f < |contents| && op.src != []
    && (op.Write? ==> Clusters(|op.src|, cl) >= Clusters(|contents[op.f]|, cl))
  }

  lemma MatchingFile(d: Disk, n: nat, cl: nat, f: nat)
    requires Inv(d, n, cl) && 0 < cl && AllMatch(d, cl) && f < |d.files|
    ensures var file := d.files[f];
            && IsFile(d.v, n, cl, file.cs, file.size) && |Reads(d, f)| == file.size
            && (|file.cs| == Clusters(file.size, cl) || (file.size == 0 && |file.cs| == 1))
  {
    var file := d.files[f];
    assert Stored(d.v, n, cl, file);
    assert Matches(|file.cs|, file.size, cl);
    assert IsFile(d.v, n, cl, file.cs, file.size);
    FileLengths(d.v, n, cl, file.cs, file.size);
    hide IsFile, Concat, Clusters;
  }

  /** What the operation makes of one byte string. */
  function Edited(was: seq<byte>, op: Op): seq<byte> {
    match op
    case Write(_, src) => src + if |src| < |was| then was[|src|..] else []
    case Append(_, src) => was + src
  }

  lemma EnoughClusters(length: nat, size: nat, total: nat, cl: nat)
    requires 0 < cl && Matches(length, size, cl) && 0 < total
    ensures Clusters(total, cl) >= length <==> Clusters(total, cl) >= Clusters(size, cl)
    ensures Clusters(total, cl) >= length ==> Matches(Clusters(total, cl), Max(size, total), cl)
  {
    OneOrMore(total, cl);
    ClustersBounds(0, cl);
    if total < size && length <= Clusters(total, cl) { SameClusters(total, size, cl, length); }
  }

  /** One complete operation on the file it names. */
  lemma FileEdited(v: Vol, n: nat, cl: nat, file: File, op: Op, r: Result)
    requires IsFile(v, n, cl, file.cs, file.size) && 0 < cl && op.src != [] && r.written == |op.src|
    requires Appendable(v, n, cl, file.cs, file.size)
    requires r == match op
                  case Write(_, src) => WriteFile(v, n, cl, file.cs, file.size, src)
                  case Append(_, src) => AppendFile(v, n, cl, file.cs, file.size, src)
    ensures var before, after := Content(v.data, file.cs, file.size), Content(r.v.data, r.cs, r.size);
            var grows := op.Write? ==> Clusters(|op.src|, cl) >= Clusters(file.size, cl);
            && (after == Edited(before, op) <==> grows) && (grows ==> Matches(|r.cs|, r.size, cl))
  {
    hide WriteFile, AppendFile, Concat, Content, Clusters, Chained, Appendable;
    match op
    case Write(_, src) =>
      WriteFileChain(v, n, cl, file.cs, file.size, src);
      ReadAfterMatchingWrite(v, n, cl, file.cs, file.size, src);
      EnoughClusters(|file.cs|, file.size, |src|, cl);
    case Append(_, src) =>
      ReadAfterAppend(v, n, cl, file.cs, file.size, src);
  }

  lemma ContentsUpdate(d: Disk, d': Disk, f: nat, x: seq<byte>)
    requires f < |d.files| == |d'.files| && forall g: nat :: g < |d.files| && g != f ==> Reads(d', g) == Reads(d, g)
    ensures Contents(d') == Contents(d)[f := x] <==> Reads(d', f) == x
  {
    hide Reads;
    if Reads(d', f) == x {
      assert forall g :: 0 <= g < |d.files| ==> Contents(d')[g] == Contents(d)[f := x][g];
      assert Contents(d') == Contents(d)[f := x];
    } else {
      assert Contents(d')[f] != Contents(d)[f := x][f];
    }
  }

  /** One complete operation does to the contents what it does to byte strings if and only if it does not
      need fewer clusters; then the chains still match the sizes. */
  lemma StepEditsIff(d: Disk, n: nat, cl: nat, op: Op, d': Disk)
    requires Inv(d, n, cl) && Next(d, n, cl, op, d') && 0 < cl && AllMatch(d, cl) && op.src != []
    requires ResultOf(d, n, cl, op).written == |op.src|
    ensures |d'.files| == |d.files|
    ensures Contents(d') == Edit(Contents(d), op) <==> Grows(Contents(d), cl, op)
    ensures Grows(Contents(d), cl, op) ==> AllMatch(d', cl)
  {
    hide *;
    NextIs(d, n, cl, op, d');
    var f, r := op.f, ResultOf(d, n, cl, op);
    MatchingFile(d, n, cl, f);
    EnabledIs(d, n, cl, op);
    FileEdited(d.v, n, cl, d.files[f], op, r);
    forall g: nat | g < |d.files| && g != f ensures Reads(d', g) == Reads(d, g) {
      StepStores(d, n, cl, op, d', g);
      ReadsSame(d, d', g);
    }
    StepStores(d, n, cl, op, d', f);
    ReadsResult(d', f, r);
    ReadsIs(d, f);
    ContentsUpdate(d, d', f, Edited(Reads(d, f), op));
    EditIs(Contents(d), op);
    GrowsIs(Contents(d), cl, op);
    if Grows(Contents(d), cl, op) { StillMatch(d, d', cl, f); }
  }

  lemma EnabledIs(d: Disk, n: nat, cl: nat, op: Op)
    requires Enabled(d, n, cl, op)
    ensures op.f < |d.files| && Appendable(d.v, n, cl, d.files[op.f].cs, d.files[op.f].size)
    ensures ResultOf(d, n, cl, op) ==
            match op
            case Write(_, src) => WriteFile(d.v, n, cl, d.files[op.f].cs, d.files[op.f].size, src)
            case Append(_, src) => AppendFile(d.v, n, cl, d.files[op.f].cs, d.files[op.f].size, src)
  {
    hide WriteFile, AppendFile;
  }

  lemma ReadsIs(d: Disk, f: nat)
    requires f < |d.files|
    ensures Reads(d, f) == Content(d.v.data, d.files[f].cs, d.files[f].size)
  {
  }

  lemma ReadsSame(d: Disk, d': Disk, g: nat)
    requires g < |d.files| && g < |d'.files| && d'.files[g] == d.files[g]
    requires Concat(d'.v.data, d.files[g].cs) == Concat(d.v.data, d.files[g].cs)
    ensures Reads(d', g) == Reads(d, g)
  {
    hide Concat;
  }

  lemma ReadsResult(d: Disk, f: nat, r: Result)
    requires f < |d.files| && d.files[f] == File(r.cs, r.size) && Concat(d.v.data, r.cs) == Concat(r.v.data, r.cs)
    ensures Reads(d, f) == Content(r.v.data, r.cs, r.size)
  {
    hide Concat;
  }

  lemma EditIs(contents: seq<seq<byte>>, op: Op)
    requires op.f < |contents|
    ensures Edit(contents, op) == contents[op.f := Edited(contents[op.f], op)]
  {
  }

  lemma GrowsIs(contents: seq<seq<byte>>, cl: nat, op: Op)
    requires op.f < |contents| && 0 < cl && op.src != []
    ensures Grows(contents, cl, op) <==> (op.Write? ==> Clusters(|op.src|, cl) >= Clusters(|contents[op.f]|, cl))
  {
  }

  lemma StillMatch(d: Disk, d': Disk, cl: nat, f: nat)
    requires 0 < cl && AllMatch(d, cl) && f < |d.files| == |d'.files| && d'.files == d.files[f := d'.files[f]]
    requires Matches(|d'.files[f].cs|, d'.files[f].size, cl)
    ensures AllMatch(d', cl)
  {
    hide Matches;
  }

  /** Every operation of the run is complete, and each grows or keeps its file. */
  ghost predicate Regular(trace: seq<Disk>, n: nat, cl: nat, ops: seq<Op>)
    requires IsRun(trace, n, cl, ops)
  {
    forall k :: 0 <= k < |ops| ==>
      Next(trace[k], n, cl, ops[k], trace[k + 1]) && Grows(Contents(trace[k]), cl, ops[k]) &&
      ResultOf(trace[k], n, cl, ops[k]).written == |ops[k].src|
  }

  /** A volume of files is a list of byte strings: in a run of complete operations, interleaved over the files
      in any way, each file reads as the string that its own operations make of it. */
  lemma {:induction false} RunEdits(trace: seq<Disk>, n: nat, cl: nat, ops: seq<Op>, k: nat)
    requires IsRun(trace, n, cl, ops) && Regular(trace, n, cl, ops) && 0 < cl && AllMatch(trace[0], cl) && k < |trace|
    ensures Contents(trace[k]) == EditAll(Contents(trace[0]), ops[..k]) && AllMatch(trace[k], cl)
    decreases k
  {
    hide *;
    RunLength(trace, n, cl, ops);
    if k > 0 {
      RegularAt(trace, n, cl, ops, k - 1);
      EditStep(Contents(trace[0]), ops, k);
      RunEdits(trace, n, cl, ops, k - 1);
      RunKeeps(trace, n, cl, ops, k - 1);
      StepEditsIff(trace[k - 1], n, cl, ops[k - 1], trace[k]);
    } else {
      EditNone(Contents(trace[0]), ops);
    }
  }

  lemma RunLength(trace: seq<Disk>, n: nat, cl: nat, ops: seq<Op>)
    requires IsRun(trace, n, cl, ops)
    ensures |trace| == |ops| + 1
  {
  }

  lemma RegularAt(trace: seq<Disk>, n: nat, cl: nat, ops: seq<Op>, k: nat)
    requires IsRun(trace, n, cl, ops) && Regular(trace, n, cl, ops) && k < |ops|
    ensures |trace| == |ops| + 1 && Next(trace[k], n, cl, ops[k], trace[k + 1])
    ensures Enabled(trace[k], n, cl, ops[k]) && ResultOf(trace[k], n, cl, ops[k]).written == |ops[k].src|
    ensures Grows(Contents(trace[k]), cl, ops[k]) && ops[k].src != []
  {
    hide ResultOf, Enabled;
  }

  lemma EditStep(contents: seq<seq<byte>>, ops: seq<Op>, k: nat)
    requires 0 < k <= |ops|
    ensures EditAll(contents, ops[..k]) == Edit(EditAll(contents, ops[..k - 1]), ops[k - 1])
  {
    assert ops[..k][..k - 1] == ops[..k - 1];
  }

  lemma EditNone(contents: seq<seq<byte>>, ops: seq<Op>)
    ensures EditAll(contents, ops[..0]) == contents
  {
  }

  // ---------------------------------------------------------------- two volumes

  /** A volume of `n` clusters of 512 bytes, with a table of 128 entries in which cluster 2 is free. */
  ghost function OneFree(n: nat, rest: nat): Vol {
    Vol(seq(128, c => if c == 2 then FREE else if c < n then EOF else rest), seq(n, _ => seq(512, _ => 0)), 2, 1)
  }

  lemma OneFreeVolume(n: nat, rest: nat)
    requires 3 <= n <= 128 && rest < EOF + 8
    ensures var v := OneFree(n, rest);
            && Sound(v, n, 512) && CountExact(v, n) && HasFree(v.fat, n)
            && Alloc(v, n) == (Vol(v.fat[2 := EOF], v.data, 3, 0), 2) && !HasFree(v.fat[2 := EOF], n)
  {
    var v := OneFree(n, rest);
    CountFreeZero(v.fat, 3, n);
    assert v.fat[2] == FREE;
    AllocIsNearestFree(v.fat, n, v.hint);
  }

  /** Data for one cluster, appended to an empty file. */
  lemma FirstCluster(v: Vol, n: nat, cl: nat, src: seq<byte>)
    requires Sound(v, n, cl) && HasFree(v.fat, n) && 0 < |src| <= cl
    ensures var (v0, c), r := Alloc(v, n), AppendFile(v, n, cl, [], 0, src);
            && c != 0 && r.written == |src| && r.size == |src| && r.cs == [c]
            && r.v == v0.(data := r.v.data) && Sound(r.v, n, cl)
  {
    var (v0, c) := Alloc(v, n);
    BeginReady(v, n, cl, []);
    assert Tail(v, n, cl, [], 0) == (v0, [c]);
    WriteLoopUnfold(v0, n, cl, [c], 0, src);
    assert Patch(v0, cl, [c], 0, src) == src;
  }

  /** The last free cluster is also the last cluster of the volume.  One byte appended to an empty file takes it,
      and leaves a hint behind the end; the next append that needs a cluster is not possible any more: the
      padding entry is free, and the search would hand it out. */
  lemma HintLeavesVolume() returns (d: Disk, d': Disk)
    ensures d == Disk(OneFree(3, FREE), [], [File([], 0)])
    ensures Inv(d, 3, 512) && Next(d, 3, 512, Append(0, [7]), d') && ResultOf(d, 3, 512, Append(0, [7])).written == 1
    ensures Inv(d', 3, 512) && d'.v.hint == 3 && d'.files == [File([2], 1)]
    ensures !Enabled(d', 3, 512, Append(0, seq(512, _ => 7)))
    ensures |d'.v.fat| == 128 && StopsAt(d'.v.fat, 3, 3, 0) && ProbeAt(3, 3, 0) == 3
  {
    hide Inv, Next, Enabled, ResultOf, AppendFile, OneFree, Alloc, Sound, CountExact, HasFree, StopsAt, ProbeAt;
    var v, op := OneFree(3, FREE), Append(0, [7]);
    d := Disk(v, [], [File([], 0)]);
    OneFreeVolume(3, FREE);
    LastFree(d);
    FirstCluster(v, 3, 512, [7]);
    var r := ResultOf(d, 3, 512, op);
    d' := Disk(r.v, [], [File(r.cs, r.size)]);
    SameOffSelf(r.v.data, []);
    NextIf(d, 3, 512, op, d');
    StepKeeps(d, 3, 512, op, d');
    PastTheEnd(d');
  }

  lemma LastFree(d: Disk)
    requires d == Disk(OneFree(3, FREE), [], [File([], 0)])
    ensures Inv(d, 3, 512) && Enabled(d, 3, 512, Append(0, [7]))
    ensures ResultOf(d, 3, 512, Append(0, [7])) == AppendFile(d.v, 3, 512, [], 0, [7])
    ensures |d.v.fat| == 128 && d.v.fat[3] == FREE == 0
  {
    OneFreeVolume(3, FREE);
    EmptyFileInv(d.v, 3, 512, []);
    assert FileOps.More(1, 0, 512) == 1 && SearchFrom(2, 3) == 2 && CountFree(d.v.fat, 2, 3) == 1;
  }

  lemma PastTheEnd(d: Disk)
    requires |d.v.fat| == 128 && d.v.fat[3] == FREE && d.v.hint == 3 && d.files == [File([2], 1)]
    ensures !Enabled(d, 3, 512, Append(0, seq(512, _ => 7)))
    ensures StopsAt(d.v.fat, 3, 3, 0) && ProbeAt(3, 3, 0) == 3
  {
    assert Clusters(513, 512) == 2 && AppendAt(1, 1, 512) == 1;
  }

  /** A volume on which only one empty file is open. */
  lemma EmptyFileInv(v: Vol, n: nat, cl: nat, dirs: seq<seq<nat>>)
    requires Sound(v, n, cl) && CountExact(v, n) && |dirs| <= 1 && (dirs != [] ==> IsChain(v.fat, n, dirs[0]))
    requires forall c :: 2 <= c < n && v.fat[c] != FREE ==> dirs != [] && c in dirs[0]
    ensures Inv(Disk(v, dirs, [File([], 0)]), n, cl)
  {
    var d := Disk(v, dirs, [File([], 0)]);
    forall c | 2 <= c < n && v.fat[c] != FREE ensures FatRuns.OnSome(Chains(d), c) { assert c in Chains(d)[0]; }
  }

  /** A volume with one free cluster that is not its last, and an empty file: of 513 bytes 512 are written, and
      the directory never learns where. */
  lemma ChainLost() returns (d: Disk, op: Op)
    ensures d == Disk(OneFree(4, EOF), [[3]], [File([], 0)]) && op == Write(0, seq(513, _ => 7))
    ensures Inv(d, 4, 512) && Enabled(d, 4, 512, op)
    ensures var r := ResultOf(d, 4, 512, op); r.written == 512 && r.cs == [2] && Recorded([], r, 513) == 0
  {
    var v, src: seq<byte> := OneFree(4, EOF), seq(513, _ => 7);
    d, op := Disk(v, [[3]], [File([], 0)]), Write(0, src);
    OneFreeVolume(4, EOF);
    assert IsChain(v.fat, 4, [3]);
    EmptyFileInv(v, 4, 512, [[3]]);
    assert v.fat[3] != FREE;
    assert Enabled(d, 4, 512, op);
    OnlyCluster(v, 4, 512, src);
  }

  /** More data than the one free cluster holds, written to an empty file. */
  lemma OnlyCluster(v: Vol, n: nat, cl: nat, src: seq<byte>)
    requires Sound(v, n, cl) && HasFree(v.fat, n) && cl < |src| && !HasFree(Alloc(v, n).0.fat, n)
    ensures var r := WriteFile(v, n, cl, [], 0, src); r.written == cl && r.cs == [Alloc(v, n).1]
  {
    var (v0, c) := Alloc(v, n);
    BeginReady(v, n, cl, []);
    WriteLoopUnfold(v0, n, cl, [c], 0, src);
  }
}
