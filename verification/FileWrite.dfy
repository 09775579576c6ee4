/** Overwriting a file: the driver writes cluster after cluster along the chain, extends the chain
    when it runs out, and cuts off and frees the clusters behind the last one written. */
module FileWrite {
  import opened Basics
  import opened Arith
  import opened Bytes
  import opened FatTable
  import opened FileData

  /** What a write loop leaves behind: the volume, the (extended) chain, the index of the last
      cluster written and the number of bytes written. */
  datatype Outcome = Outcome(v: Vol, ch: seq<nat>, at: nat, written: nat)

  ghost predicate Ready(v: Vol, n: nat, cl: nat, ch: seq<nat>, i: nat) {
    Sound(v, n, cl) && IsChain(v.fat, n, ch) && i < |ch|
  }

  /** The volume after the first bytes of cluster `c` have been overwritten with `src`. */
  ghost function Put(v: Vol, n: nat, cl: nat, c: nat, src: seq<byte>): (v': Vol)
    requires Sound(v, n, cl) && 2 <= c < n && |src| <= cl
    ensures Sound(v', n, cl) && v' == v.(data := v'.data)
    ensures forall e :: 0 <= e < n && e != c ==> v'.data[e] == v.data[e]
  {
    v.(data := v.data[c := src + v.data[c][|src|..]])
  }

  ghost function WriteLoop(v: Vol, n: nat, cl: nat, ch: seq<nat>, i: nat, src: seq<byte>): (r: Outcome)
    requires Ready(v, n, cl, ch, i) && 0 < |src|
    ensures Ready(r.v, n, cl, r.ch, r.at)
    decreases |src|
  {
    var v1 := Put(v, n, cl, ch[i], src[..Min(|src|, cl)]);
    if |src| <= cl then Outcome(v1, ch, i, |src|)
    else if i + 1 < |ch| then
      var r := WriteLoop(v1, n, cl, ch, i + 1, src[cl..]);
      r.(written := cl + r.written)
    else
      var (v2, e) := Extend(v1, n, ch);
      if e == 0 then Outcome(v1, ch, i, cl)
      else
        var r := WriteLoop(v2, n, cl, ch + [e], i + 1, src[cl..]);
        r.(written := cl + r.written)
  }

  /** The loop goes on after cluster `i`. */
  ghost predicate Continues(v: Vol, n: nat, cl: nat, ch: seq<nat>, i: nat, src: seq<byte>)
    requires Shape(v.fat, n)
  {
    cl < |src| && (i + 1 < |ch| || HasFree(v.fat, n))
  }

  /** Volume and chain at the start of the next iteration. */
  ghost function NextState(v: Vol, n: nat, cl: nat, ch: seq<nat>, i: nat, src: seq<byte>): (s: (Vol, seq<nat>))
    requires Ready(v, n, cl, ch, i) && Continues(v, n, cl, ch, i, src)
    ensures Ready(s.0, n, cl, s.1, i + 1)
  {
    var v1 := Put(v, n, cl, ch[i], src[..cl]);
    if i + 1 < |ch| then (v1, ch) else (Extend(v1, n, ch).0, ch + [Extend(v1, n, ch).1])
  }

  lemma WriteLoopUnfold(v: Vol, n: nat, cl: nat, ch: seq<nat>, i: nat, src: seq<byte>)
    requires Ready(v, n, cl, ch, i) && 0 < |src|
    ensures WriteLoop(v, n, cl, ch, i, src) ==
            if Continues(v, n, cl, ch, i, src) then
              var (v1, ch1) := NextState(v, n, cl, ch, i, src);
              var r := WriteLoop(v1, n, cl, ch1, i + 1, src[cl..]);
              r.(written := cl + r.written)
            else
              Outcome(Put(v, n, cl, ch[i], src[..Min(|src|, cl)]), ch, i, Min(|src|, cl))
  {
  }

  /** What one iteration changes. */
  ghost predicate Stepped(v: Vol, n: nat, cl: nat, ch: seq<nat>, i: nat, src: seq<byte>, v1: Vol, ch1: seq<nat>) {
    && Shape(v.fat, n) && Shape(v1.fat, n) && |v1.fat| == |v.fat| && 0 < cl < |src| && i < |ch|
    && ch[i] < |v.data| && v1.data == v.data[ch[i] := src[..cl]]
    && ch <= ch1 && |ch1| == (if i + 1 < |ch| then |ch| else |ch| + 1)
    && (forall j :: |ch| <= j < |ch1| ==> ch1[j] < |v.fat| && v.fat[ch1[j]] == FREE)
    && (forall c :: 0 <= c < |v.fat| && v1.fat[c] == FREE ==> v.fat[c] == FREE)
  }

  lemma NextStateEffect(v: Vol, n: nat, cl: nat, ch: seq<nat>, i: nat, src: seq<byte>)
    requires Ready(v, n, cl, ch, i) && Continues(v, n, cl, ch, i, src)
    ensures var (v1, ch1) := NextState(v, n, cl, ch, i, src);
            Stepped(v, n, cl, ch, i, src, v1, ch1)
  {
    var v0 := Put(v, n, cl, ch[i], src[..cl]);
    assert src[..cl] + v.data[ch[i]][cl..] == src[..cl];
  }

  lemma NextStateFrame(v: Vol, n: nat, cl: nat, ch: seq<nat>, i: nat, src: seq<byte>, c: nat)
    requires Ready(v, n, cl, ch, i) && Continues(v, n, cl, ch, i, src)
    ensures var (v1, ch1) := NextState(v, n, cl, ch, i, src);
            && |v1.fat| == |v.fat|
            && (c < |v.fat| && v.fat[c] != FREE && c !in ch ==> v1.fat[c] == v.fat[c] && c !in ch1)
            && (c < n && c != ch[i] ==> v1.data[c] == v.data[c])
  {
  }

  /** How the chain grows: it keeps the old clusters, adds free ones exactly as needed, and stops
      short only on a full volume. */
  ghost predicate Grown(v: Vol, n: nat, cl: nat, ch: seq<nat>, i: nat, size: nat, r: Outcome)
    requires Shape(v.fat, n)
  {
    && i <= r.at < |r.ch| && ch <= r.ch
    && |r.ch| == (if |ch| < r.at + 1 then r.at + 1 else |ch|)
    && (forall j :: |ch| <= j < |r.ch| ==> r.ch[j] < |v.fat| && v.fat[r.ch[j]] == FREE)
    && 0 < r.written <= size
    && (r.at - i) * cl < r.written <= (r.at - i) * cl + cl
    && Shape(r.v.fat, n)
    && (r.written < size ==> !HasFree(r.v.fat, n) && r.at + 1 == |r.ch|)
  }

  lemma GrownStep(v: Vol, n: nat, cl: nat, ch: seq<nat>, i: nat, src: seq<byte>, v1: Vol, ch1: seq<nat>, r: Outcome)
    requires Stepped(v, n, cl, ch, i, src, v1, ch1)
    requires Grown(v1, n, cl, ch1, i + 1, |src[cl..]|, r)
    ensures Grown(v, n, cl, ch, i, |src|, r.(written := cl + r.written))
  {
    var a := r.at - (i + 1);
    assert (a + 1) * cl == a * cl + cl;
  }

  lemma GrownBase(v: Vol, n: nat, cl: nat, ch: seq<nat>, i: nat, src: seq<byte>)
    requires Ready(v, n, cl, ch, i) && 0 < |src| && !Continues(v, n, cl, ch, i, src)
    ensures Grown(v, n, cl, ch, i, |src|,
                  Outcome(Put(v, n, cl, ch[i], src[..Min(|src|, cl)]), ch, i, Min(|src|, cl)))
  {
  }

  lemma {:induction false} WriteLoopGrows(v: Vol, n: nat, cl: nat, ch: seq<nat>, i: nat, src: seq<byte>)
    requires Ready(v, n, cl, ch, i) && 0 < |src|
    ensures Grown(v, n, cl, ch, i, |src|, WriteLoop(v, n, cl, ch, i, src))
    decreases |src|
  {
    hide *;
    ReadyShape(v, n, cl, ch, i);
    WriteLoopUnfold(v, n, cl, ch, i, src);
    if Continues(v, n, cl, ch, i, src) {
      ContinuesSize(v, n, cl, ch, i, src);
      var (v1, ch1) := NextState(v, n, cl, ch, i, src);
      ReadyShape(v1, n, cl, ch1, i + 1);
      NextStateEffect(v, n, cl, ch, i, src);
      WriteLoopGrows(v1, n, cl, ch1, i + 1, src[cl..]);
      GrownStep(v, n, cl, ch, i, src, v1, ch1, WriteLoop(v1, n, cl, ch1, i + 1, src[cl..]));
    } else {
      GrownBase(v, n, cl, ch, i, src);
    }
  }

  lemma ReadyShape(v: Vol, n: nat, cl: nat, ch: seq<nat>, i: nat)
    requires Ready(v, n, cl, ch, i)
    ensures Sound(v, n, cl) && Shape(v.fat, n) && |v.data| == n && 0 < cl
    ensures i < |ch| && 2 <= ch[i] < n && |v.data[ch[i]]| == cl
    ensures Distinct(ch)
  {
  }

  /** The clusters written. */
  ghost function Written(r: Outcome, i: nat): seq<nat> {
    if i <= r.at < |r.ch| then r.ch[i..r.at + 1] else []
  }

  lemma WrittenStep(v: Vol, n: nat, cl: nat, ch: seq<nat>, i: nat, size: nat, r: Outcome)
    requires Shape(v.fat, n) && Grown(v, n, cl, ch, i, size, r) && i < |ch|
    ensures Written(r, i) == [ch[i]] + Written(r, i + 1)
    ensures r.at < |r.ch|
    ensures Distinct(r.ch) ==> ch[i] !in Written(r, i + 1)
  {
  }

  /** What the loop leaves alone: entries in use that are not on the chain, and every cluster other
      than the ones it writes. */
  lemma {:induction false} WriteLoopFrame(v: Vol, n: nat, cl: nat, ch: seq<nat>, i: nat, src: seq<byte>, c: nat)
    requires Ready(v, n, cl, ch, i) && 0 < |src|
    ensures var r := WriteLoop(v, n, cl, ch, i, src);
            && |r.v.fat| == |v.fat|
            && (c < |v.fat| && v.fat[c] != FREE && c !in ch ==> r.v.fat[c] == v.fat[c])
            && (c < n && c !in Written(r, i) ==> r.v.data[c] == v.data[c])
    decreases |src|
  {
    var r := WriteLoop(v, n, cl, ch, i, src);
    WriteLoopUnfold(v, n, cl, ch, i, src);
    WriteLoopGrows(v, n, cl, ch, i, src);
    ReadyShape(v, n, cl, ch, i);
    ReadyShape(r.v, n, cl, r.ch, r.at);
    WrittenStep(v, n, cl, ch, i, |src|, r);
    hide WriteLoop, Grown, NextState, Ready, Written, Distinct;
    if Continues(v, n, cl, ch, i, src) {
      assert cl < |src|;
      hide Continues, Put;
      var (v1, ch1) := NextState(v, n, cl, ch, i, src);
      ReadyShape(v1, n, cl, ch1, i + 1);
      WriteLoopFrame(v1, n, cl, ch1, i + 1, src[cl..], c);
      SameWritten(r, WriteLoop(v1, n, cl, ch1, i + 1, src[cl..]), i + 1);
      NextStateFrame(v, n, cl, ch, i, src, c);
    }
  }

  /** The free count stays exact. */
  lemma {:induction false} WriteLoopCount(v: Vol, n: nat, cl: nat, ch: seq<nat>, i: nat, src: seq<byte>)
    requires Ready(v, n, cl, ch, i) && 0 < |src| && CountExact(v, n)
    ensures CountExact(WriteLoop(v, n, cl, ch, i, src).v, n)
    decreases |src|
  {
    WriteLoopUnfold(v, n, cl, ch, i, src);
    if Continues(v, n, cl, ch, i, src) {
      var (v1, ch1) := NextState(v, n, cl, ch, i, src);
      if i + 1 == |ch| { ExtendKeeps(Put(v, n, cl, ch[i], src[..cl]), n, ch, 0); }
      WriteLoopCount(v1, n, cl, ch1, i + 1, src[cl..]);
    }
  }

  /** The clusters `cs` hold the first `w` bytes of `src`, and their old bytes behind them. */
  ghost predicate Overwritten(before: seq<seq<byte>>, after: seq<seq<byte>>, cs: seq<nat>, src: seq<byte>, w: nat) {
    && w <= |src| && w <= |Concat(before, cs)|
    && Concat(after, cs) == src[..w] + Concat(before, cs)[w..]
  }

  lemma ContentEnds(v: Vol, n: nat, cl: nat, ch: seq<nat>, i: nat, src: seq<byte>)
    requires Ready(v, n, cl, ch, i) && 0 < |src| && !Continues(v, n, cl, ch, i, src)
    ensures var r := WriteLoop(v, n, cl, ch, i, src);
            Overwritten(v.data, r.v.data, Written(r, i), src, r.written)
  {
    var r := WriteLoop(v, n, cl, ch, i, src);
    WriteLoopUnfold(v, n, cl, ch, i, src);
    hide WriteLoop, Overwritten, Put;
    ReadyShape(v, n, cl, ch, i);
    ContentBase(v, n, cl, ch[i], src, Min(|src|, cl));
    assert Written(r, i) == [ch[i]];
  }

  lemma ContentContinues(v: Vol, n: nat, cl: nat, ch: seq<nat>, i: nat, src: seq<byte>, v1: Vol, ch1: seq<nat>,
                         r1: Outcome)
    requires Ready(v, n, cl, ch, i) && Continues(v, n, cl, ch, i, src)
    requires (v1, ch1) == NextState(v, n, cl, ch, i, src) && r1 == WriteLoop(v1, n, cl, ch1, i + 1, src[cl..])
    requires Overwritten(v1.data, r1.v.data, Written(r1, i + 1), src[cl..], r1.written)
    ensures var r := WriteLoop(v, n, cl, ch, i, src);
            Overwritten(v.data, r.v.data, Written(r, i), src, r.written)
  {
    hide *;
    ReadyShape(v, n, cl, ch, i);
    ContinuesSize(v, n, cl, ch, i, src);
    var r := WriteLoop(v, n, cl, ch, i, src);
    WriteLoopUnfold(v, n, cl, ch, i, src);
    WriteLoopGrows(v, n, cl, ch, i, src);
    ReadyShape(r.v, n, cl, r.ch, r.at);
    WrittenStep(v, n, cl, ch, i, |src|, r);
    SameWritten(r, r1, i + 1);
    WriteLoopFrame(v1, n, cl, ch1, i + 1, src[cl..], ch[i]);
    NextStateEffect(v, n, cl, ch, i, src);
    ContentStep(v, n, cl, ch, i, src, v1, ch1, r1.v.data, Written(r, i + 1), r1.written);
  }

  /** The clusters written hold the data; behind it the last cluster keeps its old bytes. */
  lemma {:induction false} WriteLoopContent(v: Vol, n: nat, cl: nat, ch: seq<nat>, i: nat, src: seq<byte>)
    requires Ready(v, n, cl, ch, i) && 0 < |src|
    ensures var r := WriteLoop(v, n, cl, ch, i, src);
            Overwritten(v.data, r.v.data, Written(r, i), src, r.written)
    decreases |src|
  {
    hide WriteLoop, NextState, Overwritten, Written;
    if Continues(v, n, cl, ch, i, src) {
      var (v1, ch1) := NextState(v, n, cl, ch, i, src);
      WriteLoopContent(v1, n, cl, ch1, i + 1, src[cl..]);
      ContentContinues(v, n, cl, ch, i, src, v1, ch1, WriteLoop(v1, n, cl, ch1, i + 1, src[cl..]));
    } else {
      ContentEnds(v, n, cl, ch, i, src);
    }
  }

  lemma ContinuesSize(v: Vol, n: nat, cl: nat, ch: seq<nat>, i: nat, src: seq<byte>)
    requires Shape(v.fat, n) && Continues(v, n, cl, ch, i, src)
    ensures cl < |src|
  {
  }

  lemma SameWritten(r: Outcome, r1: Outcome, i: nat)
    requires r.ch == r1.ch && r.at == r1.at
    ensures Written(r, i) == Written(r1, i)
  {
  }

  lemma ContentBase(v: Vol, n: nat, cl: nat, c: nat, src: seq<byte>, w: nat)
    requires Sound(v, n, cl) && 2 <= c < n && w <= |src| && w <= cl
    ensures Overwritten(v.data, Put(v, n, cl, c, src[..w]).data, [c], src, w)
  {
    ConcatOne(v.data, c);
    ConcatOne(Put(v, n, cl, c, src[..w]).data, c);
  }

  /** One cluster more at the front. */
  lemma ContentStep(v: Vol, n: nat, cl: nat, ch: seq<nat>, i: nat, src: seq<byte>, v1: Vol, ch1: seq<nat>,
                    data: seq<seq<byte>>, rest: seq<nat>, w: nat)
    requires Stepped(v, n, cl, ch, i, src, v1, ch1) && ch[i] !in rest
    requires |v.data[ch[i]]| == cl && |data| == |v.data| && data[ch[i]] == v1.data[ch[i]]
    requires Overwritten(v1.data, data, rest, src[cl..], w)
    ensures Overwritten(v.data, data, [ch[i]] + rest, src, cl + w)
  {
    var c := ch[i];
    ConcatFrame(v.data, v1.data, rest);
    ConcatSplit(v.data, [c], rest);
    ConcatSplit(data, [c], rest);
    ConcatOne(v.data, c);
    ConcatOne(data, c);
    hide Concat;
    Splice(v.data[c], Concat(v1.data, rest), src, cl, cl + w);
  }

  lemma Splice(before: seq<byte>, tail: seq<byte>, src: seq<byte>, cl: nat, w: nat)
    requires |before| == cl && cl <= w <= |src| && w - cl <= |tail|
    ensures src[..cl] + (src[cl..][..w - cl] + tail[w - cl..]) == src[..w] + (before + tail)[w..]
  {
    assert (before + tail)[w..] == tail[w - cl..];
    assert src[..w] == src[..cl] + src[cl..][..w - cl];
  }

  // ---------------------------------------------------------------- cutting the rest off

  /** Keep the first `k` clusters of a chain and free the others. */
  ghost function Trim(v: Vol, n: nat, ch: seq<nat>, k: nat): (v': Vol)
    requires Shape(v.fat, n) && IsChain(v.fat, n, ch) && 1 <= k <= |ch|
    ensures v'.data == v.data && v'.hint == v.hint
  {
    if k == |ch| then v
    else
      CutChain(v.fat, n, ch, k);
      var fat1 := v.fat[ch[k - 1] := EOF];
      ChainInRange(fat1, n, ch[k..]);
      v.(fat := Release(fat1, n, ch[k]),
         free := if v.free != UNKNOWN then v.free + ReleaseSteps(fat1, n, ch[k]) else v.free)
  }

  lemma TrimPointwise(v: Vol, n: nat, ch: seq<nat>, k: nat)
    requires Shape(v.fat, n) && IsChain(v.fat, n, ch) && 1 <= k < |ch|
    ensures var v' := Trim(v, n, ch, k);
            && |v'.fat| == |v.fat|
            && (forall c :: 0 <= c < |v.fat| ==>
                  v'.fat[c] == if c in ch[k..] then FREE else if c == ch[k - 1] then EOF else v.fat[c])
  {
    CutChain(v.fat, n, ch, k);
    ReleaseOfChain(v.fat[ch[k - 1] := EOF], n, ch[k..]);
  }

  lemma CutIsDisjoint(ch: seq<nat>, k: nat)
    requires Distinct(ch) && k <= |ch|
    ensures forall c :: c in ch[..k] ==> c !in ch[k..] && c in ch
    ensures forall c :: c in ch[k..] ==> c in ch
  {
  }

  lemma TrimEffect(v: Vol, n: nat, ch: seq<nat>, k: nat)
    requires Shape(v.fat, n) && IsChain(v.fat, n, ch) && 1 <= k <= |ch|
    ensures var v' := Trim(v, n, ch, k);
            && Shape(v'.fat, n) && |v'.fat| == |v.fat|
            && IsChain(v'.fat, n, ch[..k])
            && (forall c :: 0 <= c < |v.fat| && c !in ch ==> v'.fat[c] == v.fat[c])
            && (forall c :: 0 <= c < |v.fat| && c in ch[k..] ==> v'.fat[c] == FREE)
  {
    if k == |ch| {
      assert ch[..k] == ch && ch[k..] == [];
    } else {
      var fat1, v', hd := v.fat[ch[k - 1] := EOF], Trim(v, n, ch, k), ch[..k];
      assert ch[k - 1] in ch;
      assert Distinct(ch);
      assert forall c :: c in hd ==> c < n;
      hide IsChain, Trim, Distinct;
      CutChain(v.fat, n, ch, k);
      TrimPointwise(v, n, ch, k);
      CutIsDisjoint(ch, k);
      ChainFrame(fat1, v'.fat, n, hd);
    }
  }

  lemma TrimCount(v: Vol, n: nat, ch: seq<nat>, k: nat)
    requires Shape(v.fat, n) && IsChain(v.fat, n, ch) && 1 <= k <= |ch| && CountExact(v, n)
    ensures CountExact(Trim(v, n, ch, k), n)
  {
    if k < |ch| {
      var fat1, c0 := v.fat[ch[k - 1] := EOF], ch[k - 1];
      CutChain(v.fat, n, ch, k);
      UsedOnChain(v.fat, n, ch, c0);
      CountFreeUpdate(v.fat, 2, n, c0, EOF);
      ChainInRange(fat1, n, ch[k..]);
      ReleaseCountExactIff(fat1, n, ch[k]);
      FollowChain(fat1, n, ch[k..], |ch| - k);
    }
  }

  // ---------------------------------------------------------------- the whole operation

  /** A file as its directory entry describes it: the chain and the size; a chain matches the size
      when it has just the clusters the size needs (an empty file may own one cluster). */
  ghost predicate Matches(length: nat, size: nat, cl: nat)
    requires 0 < cl
  {
    length == Clusters(size, cl) || (size == 0 && length == 1)
  }

  /** Result of a file operation: the volume, the file's chain and size, the bytes written. */
  datatype Result = Result(v: Vol, cs: seq<nat>, size: nat, written: nat)

  /** A sound volume and a chain on it, whatever size the directory gives the file. */
  ghost predicate Chained(v: Vol, n: nat, cl: nat, cs: seq<nat>) {
    Sound(v, n, cl) && (cs == [] || IsChain(v.fat, n, cs))
  }

  ghost predicate IsFile(v: Vol, n: nat, cl: nat, cs: seq<nat>, size: nat) {
    Chained(v, n, cl, cs) && Matches(|cs|, size, cl) && (0 < size ==> cs != [])
  }

  lemma MatchingIsFile(v: Vol, n: nat, cl: nat, cs: seq<nat>, size: nat)
    requires 0 < cl && Chained(v, n, cl, cs) && Matches(|cs|, size, cl)
    ensures IsFile(v, n, cl, cs, size)
  {
    if 0 < size { OneOrMore(size, cl); }
  }

  /** The chain to write to: a fresh cluster for a file that has none, nothing on a full volume. */
  ghost function Begin(v: Vol, n: nat, cs: seq<nat>): (Vol, seq<nat>)
    requires Shape(v.fat, n)
  {
    if cs != [] then (v, cs)
    else
      var (v0, c) := Alloc(v, n);
      (v0, if c == 0 then [] else [c])
  }

  lemma BeginReady(v: Vol, n: nat, cl: nat, cs: seq<nat>)
    requires Sound(v, n, cl) && (cs == [] || IsChain(v.fat, n, cs))
    ensures var (v0, ch) := Begin(v, n, cs);
            && v0.data == v.data && |v0.fat| == |v.fat| && Sound(v0, n, cl)
            && (ch == [] ==> v0 == v && !HasFree(v.fat, n))
            && (ch != [] ==> Ready(v0, n, cl, ch, 0))
            && (ch == cs || (cs == [] && |ch| == 1 && ch[0] < |v.fat| && v.fat[ch[0]] == FREE))
            && (forall c :: 0 <= c < |v.fat| && v.fat[c] != FREE ==> v0.fat[c] == v.fat[c] && (c in ch ==> c in cs))
            && (forall c :: 0 <= c < |v.fat| && v0.fat[c] == FREE ==> v.fat[c] == FREE)
            && (CountExact(v, n) ==> CountExact(v0, n))
  {
    var (v0, c) := Alloc(v, n);
    if cs == [] && c != 0 {
      FreshChain(v.fat, n, c);
      if CountExact(v, n) { AllocKeepsCount(v, n); }
    }
  }

  /** The end of the operation: on success the rest of the chain is cut off and the size raised. */
  ghost function Finish(w: Outcome, n: nat, cl: nat, size: nat, total: nat): Result
    requires Ready(w.v, n, cl, w.ch, w.at)
  {
    if w.written < total then Result(w.v, w.ch, size, w.written)
    else
      var size' := if size < w.written then w.written else size;
      if w.written < Clusters(size, cl) * cl
      then Result(Trim(w.v, n, w.ch, w.at + 1), w.ch[..w.at + 1], size', w.written)
      else Result(w.v, w.ch, size', w.written)
  }

  /** Finishing changes no entry off the chain, no data, and keeps chain and count in order. */
  lemma FinishFrame(w: Outcome, n: nat, cl: nat, size: nat, total: nat)
    requires Ready(w.v, n, cl, w.ch, w.at)
    ensures var r := Finish(w, n, cl, size, total);
            && Sound(r.v, n, cl) && |r.v.fat| == |w.v.fat| && IsChain(r.v.fat, n, r.cs) && r.v.data == w.v.data
            && r.cs <= w.ch && r.written == w.written
            && (forall c :: 0 <= c < |w.v.fat| && c !in w.ch ==> r.v.fat[c] == w.v.fat[c])
            && (CountExact(w.v, n) ==> CountExact(r.v, n))
  {
    hide *;
    FinishCases(w, n, cl, size, total);
    TrimFacts(w.v, n, cl, w.ch, w.at + 1);
  }

  /** The rest of the chain is cut off or not. */
  lemma FinishCases(w: Outcome, n: nat, cl: nat, size: nat, total: nat)
    requires Ready(w.v, n, cl, w.ch, w.at)
    ensures Sound(w.v, n, cl) && Shape(w.v.fat, n) && IsChain(w.v.fat, n, w.ch) && w.at + 1 <= |w.ch|
    ensures var r := Finish(w, n, cl, size, total);
            && r.written == w.written
            && ((r.v == w.v && r.cs == w.ch) || (r.v == Trim(w.v, n, w.ch, w.at + 1) && r.cs == w.ch[..w.at + 1]))
  {
    hide Trim, IsChain, Clusters;
  }

  lemma TrimFacts(v: Vol, n: nat, cl: nat, ch: seq<nat>, k: nat)
    requires Sound(v, n, cl) && IsChain(v.fat, n, ch) && 1 <= k <= |ch|
    ensures var v' := Trim(v, n, ch, k);
            && Sound(v', n, cl) && |v'.fat| == |v.fat| && IsChain(v'.fat, n, ch[..k]) && v'.data == v.data
            && (forall c :: 0 <= c < |v.fat| && c !in ch ==> v'.fat[c] == v.fat[c])
            && (CountExact(v, n) ==> CountExact(v', n))
  {
    TrimEffect(v, n, ch, k);
    if CountExact(v, n) { TrimCount(v, n, ch, k); }
    hide Trim, CountExact, IsChain;
  }

  /** `FAT32_WriteFile` on the abstract volume. */
  ghost function WriteFile(v: Vol, n: nat, cl: nat, cs: seq<nat>, size: nat, src: seq<byte>): Result
    requires Chained(v, n, cl, cs)
  {
    BeginReady(v, n, cl, cs);
    var (v0, ch) := Begin(v, n, cs);
    if src == [] then
      if cs == [] || size == 0 then Result(v, cs, size, 0)
      else Result(Trim(v, n, cs, 1), cs[..1], size, 0)
    else if ch == [] then Result(v, cs, size, 0)
    else Finish(WriteLoop(v0, n, cl, ch, 0, src), n, cl, size, |src|)
  }

  /** A write loop that got through wrote just the clusters the data needs. */
  lemma LoopLength(v: Vol, n: nat, cl: nat, ch: seq<nat>, size: nat, w: Outcome)
    requires Shape(v.fat, n) && 0 < cl && Grown(v, n, cl, ch, 0, size, w) && w.written == size
    ensures w.at + 1 == Clusters(size, cl) && size <= (w.at + 1) * cl && w.at < |w.ch|
    ensures |w.ch| == (if |ch| < w.at + 1 then w.at + 1 else |ch|)
    ensures ch <= w.ch && Written(w, 0) == w.ch[..w.at + 1]
  {
    assert (w.at + 1) * cl == w.at * cl + cl;
    ClustersUnique(size, cl, w.at + 1);
  }

  /** The clusters a file of `length` clusters has after `total` bytes were written to it: those the data
      needs, and also the rest of the chain if the recorded size does not reach past the data. */
  function Kept(length: nat, size: nat, total: nat, cl: nat): nat
    requires 0 < cl
  {
    if total < Clusters(size, cl) * cl || length < Clusters(total, cl) then Clusters(total, cl) else length
  }

  /** Behind the clusters written the chain keeps its bytes. */
  lemma RestKept(v: Vol, n: nat, cl: nat, ch: seq<nat>, src: seq<byte>, w: Outcome)
    requires Ready(v, n, cl, ch, 0) && 0 < |src| && w == WriteLoop(v, n, cl, ch, 0, src) && w.written == |src|
    ensures Overwritten(v.data, w.v.data, w.ch, src, |src|)
  {
    hide *;
    ReadyShape(v, n, cl, ch, 0);
    ReadyShape(w.v, n, cl, w.ch, w.at);
    WriteLoopGrows(v, n, cl, ch, 0, src);
    LoopLength(v, n, cl, ch, |src|, w);
    WriteLoopContent(v, n, cl, ch, 0, src);
    var back := w.ch[w.at + 1..];
    BackInRange(w.v, n, cl, w.ch, w.at, back);
    forall j | 0 <= j < |back| ensures Get(w.v.data, back[j]) == Get(v.data, back[j]) {
      WriteLoopFrame(v, n, cl, ch, 0, src, back[j]);
      SameGet(w.v.data, v.data, back[j]);
    }
    ConcatFrame(w.v.data, v.data, back);
    OverwrittenMore(v.data, w.v.data, w.ch, w.at + 1, src);
  }

  lemma SameGet(a: seq<seq<byte>>, b: seq<seq<byte>>, c: nat)
    requires c < |a| && c < |b| && a[c] == b[c]
    ensures Get(a, c) == Get(b, c)
  {
  }

  lemma BackInRange(v: Vol, n: nat, cl: nat, ch: seq<nat>, i: nat, back: seq<nat>)
    requires Ready(v, n, cl, ch, i) && back == ch[i + 1..]
    ensures forall j :: 0 <= j < |back| ==> back[j] < n && back[j] !in ch[..i + 1]
  {
    assert forall j :: 0 <= j < |back| ==> back[j] == ch[i + 1 + j] && ch[i + 1 + j] in ch;
    assert Distinct(ch);
  }

  lemma OverwrittenMore(before: seq<seq<byte>>, after: seq<seq<byte>>, ch: seq<nat>, k: nat, src: seq<byte>)
    requires k <= |ch| && Overwritten(before, after, ch[..k], src, |src|)
    requires Concat(after, ch[k..]) == Concat(before, ch[k..])
    ensures Overwritten(before, after, ch, src, |src|)
  {
    hide Concat;
    var hd, tl := ch[..k], ch[k..];
    assert ch == hd + tl;
    ConcatSplit(before, hd, tl);
    ConcatSplit(after, hd, tl);
    SpliceMore(Concat(before, hd), Concat(before, tl), src[..|src|]);
  }

  lemma SpliceMore(x: seq<byte>, y: seq<byte>, src: seq<byte>)
    requires |src| <= |x|
    ensures (src + x[|src|..]) + y == src + (x + y)[|src|..]
  {
  }

  /** What finishing does to a loop that got through. */
  lemma FinishKeeps(v: Vol, n: nat, cl: nat, ch: seq<nat>, length: nat, size: nat, src: seq<byte>, w: Outcome)
    requires Ready(v, n, cl, ch, 0) && src != [] && w == WriteLoop(v, n, cl, ch, 0, src) && w.written == |src|
    requires |ch| == length || (length == 0 && |ch| == 1)
    ensures var r := Finish(w, n, cl, size, |src|);
            && 0 < cl && |r.cs| == Kept(length, size, |src|, cl) && r.size == (if size < |src| then |src| else size)
            && (ch <= r.cs || r.cs <= ch)
            && Overwritten(v.data, r.v.data, r.cs, src, |src|)
  {
    hide WriteLoop, Ready, Overwritten, Trim, Clusters;
    ReadyShape(v, n, cl, ch, 0);
    WriteLoopGrows(v, n, cl, ch, 0, src);
    LoopLength(v, n, cl, ch, |src|, w);
    WriteLoopContent(v, n, cl, ch, 0, src);
    RestKept(v, n, cl, ch, src, w);
    FinishFrame(w, n, cl, size, |src|);
    OneOrMore(|src|, cl);
  }

  /** A successful write, to whatever chain, leaves the file on one chain that extends the old one or is
      its front; it holds the data and then its old bytes. */
  lemma WriteFileChain(v: Vol, n: nat, cl: nat, cs: seq<nat>, size: nat, src: seq<byte>)
    requires Chained(v, n, cl, cs) && src != [] && WriteFile(v, n, cl, cs, size, src).written == |src|
    ensures var r := WriteFile(v, n, cl, cs, size, src);
            && Sound(r.v, n, cl) && IsChain(r.v.fat, n, r.cs)
            && |r.cs| == Kept(|cs|, size, |src|, cl)
            && r.size == (if size < |src| then |src| else size)
            && (cs <= r.cs || r.cs <= cs)
            && Overwritten(v.data, r.v.data, r.cs, src, |src|)
  {
    var r := WriteFile(v, n, cl, cs, size, src);
    var (v0, ch) := Begin(v, n, cs);
    BeginReady(v, n, cl, cs);
    var w := WriteLoop(v0, n, cl, ch, 0, src);
    assert r == Finish(w, n, cl, size, |src|);
    hide *;
    FinishFrame(w, n, cl, size, |src|);
    FinishKeeps(v0, n, cl, ch, |cs|, size, src, w);
  }

  /** A file whose chain matches its size keeps just the clusters its data needs. */
  lemma KeptMatching(length: nat, size: nat, total: nat, cl: nat)
    requires 0 < cl && Matches(length, size, cl) && 0 < total
    ensures Kept(length, size, total, cl) == Clusters(total, cl)
  {
    ClustersBounds(total, cl);
    OneOrMore(total, cl);
    if Clusters(total, cl) < length { MulMono(Clusters(total, cl), length, cl); }
  }

  /** Everything the two cases below need to know about a successful write. */
  lemma WriteFacts(v: Vol, n: nat, cl: nat, cs: seq<nat>, size: nat, src: seq<byte>)
    requires IsFile(v, n, cl, cs, size) && src != [] && WriteFile(v, n, cl, cs, size, src).written == |src|
    ensures var r, k := WriteFile(v, n, cl, cs, size, src), Clusters(|src|, cl);
            && 0 < cl && Matches(|cs|, size, cl)
            && |r.cs| == k && (if |cs| <= k then cs <= r.cs else r.cs <= cs)
            && r.size == (if size < |src| then |src| else size)
            && |Concat(v.data, cs)| == |cs| * cl && size <= |cs| * cl
            && |Concat(v.data, r.cs)| == k * cl && |src| <= k * cl
            && Concat(r.v.data, r.cs) == src + Concat(v.data, r.cs)[|src|..]
  {
    var r := WriteFile(v, n, cl, cs, size, src);
    assert Sound(v, n, cl) && 0 < cl && Matches(|cs|, size, cl);
    WriteFileChain(v, n, cl, cs, size, src);
    assert Concat(r.v.data, r.cs) == src[..|src|] + Concat(v.data, r.cs)[|src|..] && src[..|src|] == src;
    assert n <= |r.v.fat|;
    hide *;
    KeptMatching(|cs|, size, |src|, cl);
    FileLengths(v, n, cl, cs, size);
    ChainLength(v, n, cl, r.v.fat, r.cs);
    ClustersBounds(|src|, cl);
    assert |cs| == |r.cs| && r.cs <= cs ==> cs <= r.cs;
  }

  lemma ReadAfterGrowing(v: Vol, n: nat, cl: nat, cs: seq<nat>, size: nat, src: seq<byte>)
    requires IsFile(v, n, cl, cs, size) && src != [] && WriteFile(v, n, cl, cs, size, src).written == |src|
    requires |cs| <= Clusters(|src|, cl)
    ensures var r, before := WriteFile(v, n, cl, cs, size, src), Content(v.data, cs, size);
            Content(r.v.data, r.cs, r.size) == src + if |src| < |before| then before[|src|..] else []
  {
    var r := WriteFile(v, n, cl, cs, size, src);
    WriteFacts(v, n, cl, cs, size, src);
    hide WriteFile, IsFile, Concat, Clusters, Matches;
    PrefixConcat(v.data, cs, r.cs);
    if |src| < size { SameClusters(|src|, size, cl, |cs|); }
    ReadBack(Concat(v.data, cs), Concat(v.data, r.cs), src, size);
  }

  lemma ReadAfterShrinking(v: Vol, n: nat, cl: nat, cs: seq<nat>, size: nat, src: seq<byte>)
    requires IsFile(v, n, cl, cs, size) && src != [] && WriteFile(v, n, cl, cs, size, src).written == |src|
    requires Clusters(|src|, cl) < |cs|
    ensures var r := WriteFile(v, n, cl, cs, size, src);
            var after := Content(r.v.data, r.cs, r.size);
            && |src| <= |Concat(v.data, r.cs)| && after == src + Concat(v.data, r.cs)[|src|..]
            && |after| < size == |Content(v.data, cs, size)|
  {
    var r, k := WriteFile(v, n, cl, cs, size, src), Clusters(|src|, cl);
    WriteFacts(v, n, cl, cs, size, src);
    hide WriteFile, IsFile, Concat, Matches, Clusters;
    MulLe(k, |cs| - 1, cl);
    ClustersBounds(|src|, cl);
    OneOrMore(|src|, cl);
    SizeOfMatch(|cs|, size, cl);
  }

  lemma OneOrMore(size: nat, cl: nat)
    requires 0 < size && 0 < cl
    ensures 1 <= Clusters(size, cl)
  {
    ClustersBounds(size, cl);
    assert Clusters(size, cl) * cl != 0;
  }

  /** What is read after `src` was written over the bytes `under` of the clusters kept: the data, and then the
      bytes under it up to the size; all of the old content behind the data if and only if the clusters
      kept reach as far as the `had` bytes the file had clusters for, up to the size. */
  ghost predicate WrittenOver(before: seq<byte>, under: seq<byte>, after: seq<byte>, src: seq<byte>, size: nat,
                              had: nat)
  {
    && |src| <= |under| && src <= after
    && after == src + under[|src|..Max(|src|, Min(size, |under|))]
    && (after == src + (if |src| < |before| then before[|src|..] else []) <==>
        Max(|src|, Min(size, |under|)) == Max(|src|, Min(size, had)))
  }

  /** A reader of `r` sees `src` written over the content, on as many clusters as are kept. */
  ghost predicate Rewritten(v: Vol, cl: nat, cs: seq<nat>, size: nat, src: seq<byte>, r: Result) {
    && 0 < cl && |Concat(v.data, r.cs)| == Kept(|cs|, size, |src|, cl) * cl
    && WrittenOver(Content(v.data, cs, size), Concat(v.data, r.cs), Content(r.v.data, r.cs, r.size), src, size,
                   |cs| * cl)
  }

  /** What a reader sees after a successful write to any chain: the data and then the bytes that were on
      the clusters kept, up to the recorded size, which is never lowered.  It is the data followed by
      the old content past its end if and only if that has the right length, which the size, the
      length of the chain and the length of the data decide. */
  lemma ReadAfterWrite(v: Vol, n: nat, cl: nat, cs: seq<nat>, size: nat, src: seq<byte>)
    requires Chained(v, n, cl, cs) && src != [] && WriteFile(v, n, cl, cs, size, src).written == |src|
    ensures Rewritten(v, cl, cs, size, src, WriteFile(v, n, cl, cs, size, src))
  {
    var r := WriteFile(v, n, cl, cs, size, src);
    hide *;
    WriteFileChain(v, n, cl, cs, size, src);
    SoundOf(v, n, cl, cs, r.v);
    AllOver(v.data, r.v.data, r.cs, src);
    ChainedLength(v, n, cl, cs);
    ChainLength(v, n, cl, r.v.fat, r.cs);
    if cs <= r.cs { PrefixConcat(v.data, cs, r.cs); } else { PrefixConcat(v.data, r.cs, cs); }
    ContentIs(v.data, cs, size);
    ContentIs(r.v.data, r.cs, r.size);
    ReadBackAny(Concat(v.data, cs), Concat(v.data, r.cs), src, size);
  }

  lemma SoundOf(v: Vol, n: nat, cl: nat, cs: seq<nat>, v': Vol)
    requires Chained(v, n, cl, cs) && Sound(v', n, cl)
    ensures Sound(v, n, cl) && 0 < cl && n <= |v'.fat|
  {
  }

  lemma AllOver(data: seq<seq<byte>>, data': seq<seq<byte>>, cs: seq<nat>, src: seq<byte>)
    requires Overwritten(data, data', cs, src, |src|)
    ensures |src| <= |Concat(data, cs)| && Concat(data', cs) == src + Concat(data, cs)[|src|..]
  {
    hide Concat;
    assert src[..|src|] == src;
  }

  lemma ChainedLength(v: Vol, n: nat, cl: nat, cs: seq<nat>)
    requires Chained(v, n, cl, cs)
    ensures |Concat(v.data, cs)| == |cs| * cl
  {
    ChainLength(v, n, cl, v.fat, cs);
  }

  lemma ContentIs(data: seq<seq<byte>>, cs: seq<nat>, size: nat)
    ensures var all := Concat(data, cs); Content(data, cs, size) == all[..Min(size, |all|)]
  {
  }

  /** The same on plain byte strings: `old` was on the chain before, `under` on the clusters kept. */
  lemma ReadBackAny(before: seq<byte>, under: seq<byte>, src: seq<byte>, size: nat)
    requires (before <= under || under <= before) && |src| <= |under|
    ensures var all, size' := src + under[|src|..], if size < |src| then |src| else size;
            var after, was := all[..Min(size', |all|)], before[..Min(size, |before|)];
            var end := Max(|src|, Min(size, |under|));
            && end <= |under| && src <= after && after == src + under[|src|..end]
            && (after == src + (if |src| < |was| then was[|src|..] else []) <==> end == Max(|src|, Min(size, |before|)))
  {
    var all, size' := src + under[|src|..], if size < |src| then |src| else size;
    var after, was := all[..Min(size', |all|)], before[..Min(size, |before|)];
    var end := Max(|src|, Min(size, |under|));
    assert |all| == |under| && Min(size', |all|) == end;
    assert after == src + under[|src|..end];
    var rest := if |src| < |was| then was[|src|..] else [];
    assert |src + rest| == Max(|src|, Min(size, |before|));
    if end == Max(|src|, Min(size, |before|)) {
      assert rest == under[|src|..end];
    }
  }

  /** For a chain that matches the size: the old content past the data is still there if and only if the
      data needs at least as many clusters as the file had.  Otherwise it stops at the end of the last
      cluster kept. */
  lemma ReadAfterMatchingWrite(v: Vol, n: nat, cl: nat, cs: seq<nat>, size: nat, src: seq<byte>)
    requires IsFile(v, n, cl, cs, size) && src != [] && WriteFile(v, n, cl, cs, size, src).written == |src|
    ensures var r, before := WriteFile(v, n, cl, cs, size, src), Content(v.data, cs, size);
            var after := Content(r.v.data, r.cs, r.size);
            && |r.cs| == Clusters(|src|, cl)
            && (after == src + (if |src| < |before| then before[|src|..] else []) <==>
                Clusters(|src|, cl) >= |cs|)
  {
    assert 0 < cl;
    hide *;
    WriteFacts(v, n, cl, cs, size, src);
    if |cs| <= Clusters(|src|, cl) {
      ReadAfterGrowing(v, n, cl, cs, size, src);
    } else {
      ReadAfterShrinking(v, n, cl, cs, size, src);
    }
  }

  /** A volume of 128 clusters of 512 bytes with one file, on the clusters 2 and 3. */
  ghost function TwoClusters(): Vol {
    Vol(seq(128, c => if c == 2 then 3 else EOF), seq(128, _ => seq(512, _ => 0)), 4, 0)
  }

  lemma TwoClustersFile(size: nat)
    requires 512 < size <= 1024
    ensures IsFile(TwoClusters(), 128, 512, [2, 3], size) && Chained(TwoClusters(), 128, 512, [2, 3])
  {
    assert IsChain(TwoClusters().fat, 128, [2, 3]);
    assert Sound(TwoClusters(), 128, 512) && Clusters(size, 512) == 2;
  }

  lemma TwoOrOne(size: nat)
    requires 512 < size <= 1024
    ensures Matches(2, size, 512) && Clusters(1, 512) == 1
  {
  }

  lemma OneByte(v: Vol, n: nat, cl: nat, cs: seq<nat>, size: nat, src: seq<byte>)
    requires Chained(v, n, cl, cs) && cs != [] && |src| == 1
    ensures WriteFile(v, n, cl, cs, size, src).written == 1
  {
  }

  /** Overwritten by one byte, the file is cut to one cluster and keeps its recorded size. */
  lemma ShrinkLosesBytes(size: nat)
    requires 512 < size <= 1024
    ensures IsFile(TwoClusters(), 128, 512, [2, 3], size) && |Content(TwoClusters().data, [2, 3], size)| == size
    ensures var r := WriteFile(TwoClusters(), 128, 512, [2, 3], size, [1]);
            && r.written == 1 && r.size == size && r.cs == [2] && Chained(r.v, 128, 512, [2])
            && |Content(r.v.data, [2], size)| == 512
  {
    hide *;
    var v, cs, src: seq<byte> := TwoClusters(), [2, 3], [1];
    TwoClustersFile(size);
    OneByte(v, 128, 512, cs, size, src);
    var r := WriteFile(v, 128, 512, cs, size, src);
    WriteFileChain(v, 128, 512, cs, size, src);
    TwoOrOne(size);
    KeptMatching(2, size, 1, 512);
    assert r.cs <= cs && |r.cs| == 1;
    assert r.cs == [2];
    ChainedIf(r.v, 128, 512, r.cs);
    ChainedLength(v, 128, 512, cs);
    ChainedLength(r.v, 128, 512, r.cs);
    ContentIs(v.data, cs, size);
    ContentIs(r.v.data, r.cs, size);
    MinIs(size, 1024);
    MinIs(size, 512);
  }

  lemma ChainedIf(v: Vol, n: nat, cl: nat, cs: seq<nat>)
    requires Sound(v, n, cl) && (cs == [] || IsChain(v.fat, n, cs))
    ensures Chained(v, n, cl, cs)
  {
  }

  lemma SizeOfMatch(length: nat, size: nat, cl: nat)
    requires 0 < cl && Matches(length, size, cl) && 1 < length
    ensures (length - 1) * cl < size
  {
    ClustersBounds(size, cl);
    assert (length - 1) * cl == length * cl - cl;
  }

  lemma ReadBack(before: seq<byte>, under: seq<byte>, src: seq<byte>, size: nat)
    requires before <= under && size <= |before| && |src| <= |under|
    requires |src| < size ==> |before| == |under|
    ensures var all, size' := src + under[|src|..], if size < |src| then |src| else size;
            all[..size'] == src + if |src| < size then before[..size][|src|..] else []
  {
  }

  lemma SameClusters(a: nat, b: nat, cl: nat, length: nat)
    requires 0 < cl && 0 < a < b && Matches(length, b, cl) && length <= Clusters(a, cl)
    ensures Clusters(a, cl) == length
  {
    ClustersBounds(a, cl);
    ClustersBounds(b, cl);
    if Clusters(a, cl) > length { MulMono(length, Clusters(a, cl), cl); }
  }

  lemma PrefixConcat(data: seq<seq<byte>>, cs: seq<nat>, ds: seq<nat>)
    requires cs <= ds
    ensures Concat(data, cs) <= Concat(data, ds)
  {
    assert ds == cs + ds[|cs|..];
    ConcatSplit(data, cs, ds[|cs|..]);
  }

  lemma ChainLength(v: Vol, n: nat, cl: nat, fat: Fat, cs: seq<nat>)
    requires Sound(v, n, cl) && n <= |fat| && (cs == [] || IsChain(fat, n, cs))
    ensures |Concat(v.data, cs)| == |cs| * cl
  {
    ConcatLength(v.data, cs, cl);
  }

  lemma FileLengths(v: Vol, n: nat, cl: nat, cs: seq<nat>, size: nat)
    requires IsFile(v, n, cl, cs, size)
    ensures |Concat(v.data, cs)| == |cs| * cl && size <= |Concat(v.data, cs)|
  {
    ChainLength(v, n, cl, v.fat, cs);
    ClustersBounds(size, cl);
  }

  // ---------------------------------------------------------------- every outcome

  /** Whatever the outcome, a full volume included, the file is left on a proper chain, the write
      stops short only when no cluster is free, and a known free count stays exact. */
  lemma WriteFileSafe(v: Vol, n: nat, cl: nat, cs: seq<nat>, size: nat, src: seq<byte>)
    requires Chained(v, n, cl, cs)
    ensures var r := WriteFile(v, n, cl, cs, size, src);
            && Sound(r.v, n, cl) && |r.v.fat| == |v.fat|
            && (r.cs == [] || IsChain(r.v.fat, n, r.cs))
            && r.written <= |src| && (r.written < |src| ==> !HasFree(r.v.fat, n))
            && (CountExact(v, n) ==> CountExact(r.v, n))
  {
    var (v0, ch) := Begin(v, n, cs);
    BeginReady(v, n, cl, cs);
    if src == [] {
      if cs != [] && size != 0 {
        TrimEffect(v, n, cs, 1);
        if CountExact(v, n) { TrimCount(v, n, cs, 1); }
      }
    } else if ch != [] {
      var w := WriteLoop(v0, n, cl, ch, 0, src);
      assert WriteFile(v, n, cl, cs, size, src) == Finish(w, n, cl, size, |src|);
      assert w.written < |src| ==> Finish(w, n, cl, size, |src|).v == w.v;
      hide WriteFile, Ready, Finish, WriteLoop, CountExact, Sound, IsChain;
      FinishFrame(w, n, cl, size, |src|);
      WriteLoopGrows(v0, n, cl, ch, 0, src);
      WriteLoopFrame(v0, n, cl, ch, 0, src, 0);
      if CountExact(v, n) { WriteLoopCount(v0, n, cl, ch, 0, src); }
    }
  }

  /** Whatever the outcome, a cluster in use by anyone else keeps its entry and its bytes and does not
      end up in the file. */
  lemma WriteFileFrame(v: Vol, n: nat, cl: nat, cs: seq<nat>, size: nat, src: seq<byte>, c: nat)
    requires Chained(v, n, cl, cs) && 2 <= c < n && v.fat[c] != FREE && c !in cs
    ensures var r := WriteFile(v, n, cl, cs, size, src);
            |r.v.fat| == |v.fat| && |r.v.data| == n && r.v.fat[c] == v.fat[c] && r.v.data[c] == v.data[c] && c !in r.cs
  {
    var (v0, ch) := Begin(v, n, cs);
    BeginReady(v, n, cl, cs);
    if src == [] {
      if cs != [] && size != 0 {
        TrimEffect(v, n, cs, 1);
        assert cs[..1] <= cs;
      }
    } else if ch != [] {
      var w := WriteLoop(v0, n, cl, ch, 0, src);
      assert WriteFile(v, n, cl, cs, size, src) == Finish(w, n, cl, size, |src|);
      hide WriteFile, Ready, Finish, WriteLoop, CountExact, IsChain, Begin;
      FinishFrame(w, n, cl, size, |src|);
      WriteLoopFrame(v0, n, cl, ch, 0, src, c);
      WriteLoopGrows(v0, n, cl, ch, 0, src);
      GrownAvoids(v0, n, cl, ch, |src|, w, c);
    }
  }

  lemma GrownAvoids(v: Vol, n: nat, cl: nat, ch: seq<nat>, size: nat, w: Outcome, c: nat)
    requires Shape(v.fat, n) && Grown(v, n, cl, ch, 0, size, w)
    requires c < |v.fat| && v.fat[c] != FREE && c !in ch
    ensures c !in w.ch && c !in Written(w, 0)
  {
    forall j | 0 <= j < |w.ch| ensures w.ch[j] != c {
      if j < |ch| { assert ch[j] in ch; }
    }
  }

  /** Every other file keeps its chain and its contents. */
  lemma WriteLeavesOthers(v: Vol, n: nat, cl: nat, cs: seq<nat>, size: nat, src: seq<byte>, ws: seq<nat>)
    requires Chained(v, n, cl, cs) && IsChain(v.fat, n, ws) && Disjoint(ws, cs)
    ensures var r := WriteFile(v, n, cl, cs, size, src);
            && n <= |r.v.fat| && IsChain(r.v.fat, n, ws) && Disjoint(ws, r.cs)
            && Concat(r.v.data, ws) == Concat(v.data, ws)
  {
    var r := WriteFile(v, n, cl, cs, size, src);
    forall c | c in ws
      ensures |r.v.fat| == |v.fat| && |r.v.data| == n && 2 <= c < n
      ensures r.v.fat[c] == v.fat[c] && r.v.data[c] == v.data[c] && c !in r.cs
    {
      UsedOnChain(v.fat, n, ws, c);
      WriteFileFrame(v, n, cl, cs, size, src, c);
    }
    assert ws[0] in ws && |v.data| == n;
    assert forall i :: 0 <= i < |ws| ==> ws[i] in ws;
    hide WriteFile, Concat, Chained;
    ChainFrame(v.fat, r.v.fat, n, ws);
    ConcatFrame(v.data, r.v.data, ws);
  }
}
