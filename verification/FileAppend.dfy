/** Appending to a file.  The driver walks to the last cluster of the chain and writes on from the end
    of the data, so an append is an overwrite of the tail of the chain that begins with the bytes
    already there. */
module FileAppend {
  import opened Basics
  import opened Bytes
  import opened FatTable
  import opened FileData
  import opened FileWrite

  /** The bytes of data in a last cluster that is not full. */
  function Offset(size: nat, cl: nat): (r: nat)
    requires 0 < cl
    ensures r < cl
  {
    size % cl
  }

  /** A file that can be appended to: whatever its chain, one that has bytes has a cluster. */
  ghost predicate Appendable(v: Vol, n: nat, cl: nat, cs: seq<nat>, size: nat) {
    Chained(v, n, cl, cs) && (0 < size ==> cs != [])
  }

  /** Where on the chain the driver puts the first new byte: behind the last cluster if the size ends a
      cluster, else in the last cluster at the offset that the size gives. */
  function AppendAt(length: nat, size: nat, cl: nat): nat
    requires 0 < cl
  {
    if 0 < size && Offset(size, cl) == 0 then length * cl
    else if length == 0 then Offset(size, cl)
    else (length - 1) * cl + Offset(size, cl)
  }

  /** On a chain that matches the size that is the end of the file. */
  lemma AppendAtEnd(length: nat, size: nat, cl: nat)
    requires 0 < cl && Matches(length, size, cl)
    ensures AppendAt(length, size, cl) == size && (0 < size ==> 0 < length)
  {
    TailPosition(length, size, cl);
  }

  lemma AppendableIs(v: Vol, n: nat, cl: nat, cs: seq<nat>, size: nat)
    ensures Appendable(v, n, cl, cs, size) <==> Chained(v, n, cl, cs) && (0 < size ==> cs != [])
  {
  }

  lemma ChainedPositive(v: Vol, n: nat, cl: nat, cs: seq<nat>)
    requires Chained(v, n, cl, cs)
    ensures 0 < cl
  {
  }

  lemma FileIsAppendable(v: Vol, n: nat, cl: nat, cs: seq<nat>, size: nat)
    requires IsFile(v, n, cl, cs, size)
    ensures 0 < cl && Appendable(v, n, cl, cs, size) && AppendAt(|cs|, size, cl) == size
  {
    AppendAtEnd(|cs|, size, cl);
  }

  /** Volume and chain once the cluster that receives the first new byte is in place: the last
      cluster of the chain, or a new one when the last is full; nothing on a full volume. */
  ghost function Tail(v: Vol, n: nat, cl: nat, cs: seq<nat>, size: nat): (Vol, seq<nat>)
    requires Appendable(v, n, cl, cs, size)
  {
    BeginReady(v, n, cl, cs);
    var (v0, ch) := Begin(v, n, cs);
    if ch != [] && 0 < size && Offset(size, cl) == 0 then
      var (v1, e) := Extend(v0, n, ch);
      (v1, if e == 0 then [] else ch + [e])
    else (v0, ch)
  }

  /** The bytes of the tail cluster in front of the append position, followed by the new data. */
  ghost function Patch(v: Vol, cl: nat, ch: seq<nat>, size: nat, src: seq<byte>): seq<byte>
    requires 0 < cl && ch != [] && ch[|ch| - 1] < |v.data| && |v.data[ch[|ch| - 1]]| == cl
  {
    v.data[ch[|ch| - 1]][..Offset(size, cl)] + src
  }

  /** `FAT32_AppendFile` on the abstract volume. */
  ghost function AppendFile(v: Vol, n: nat, cl: nat, cs: seq<nat>, size: nat, src: seq<byte>): Result
    requires Appendable(v, n, cl, cs, size)
  {
    TailReady(v, n, cl, cs, size);
    var (v1, ch) := Tail(v, n, cl, cs, size);
    if src == [] then Result(v, cs, size, 0)
    else if ch == [] then Result(v1, cs, size, 0)
    else
      var w := WriteLoop(v1, n, cl, ch, |ch| - 1, Patch(v1, cl, ch, size, src));
      var written := if w.written < Offset(size, cl) then 0 else w.written - Offset(size, cl);
      if written < |src| then Result(w.v, w.ch, size, written)
      else Result(w.v, w.ch, size + written, written)
  }

  /** The tail cluster is ready and sits right at the end of the data. */
  lemma TailReady(v: Vol, n: nat, cl: nat, cs: seq<nat>, size: nat)
    requires Appendable(v, n, cl, cs, size)
    ensures var (v1, ch) := Tail(v, n, cl, cs, size);
            && v1.data == v.data && |v1.fat| == |v.fat| && Sound(v1, n, cl)
            && (ch == [] ==> !HasFree(v1.fat, n))
            && (ch != [] ==>
                  && Ready(v1, n, cl, ch, |ch| - 1)
                  && cs <= ch && |ch| <= |cs| + 1
                  && AppendAt(|cs|, size, cl) == (|ch| - 1) * cl + Offset(size, cl)
                  && (Offset(size, cl) == 0 ==> |cs| == |ch| - 1 || size == 0)
                  && (|cs| < |ch| ==> Offset(size, cl) == 0))
            && (CountExact(v, n) ==> CountExact(v1, n))
  {
    BeginReady(v, n, cl, cs);
    var (v0, ch0) := Begin(v, n, cs);
    if ch0 != [] {
      if 0 < size && Offset(size, cl) == 0 {
        if CountExact(v, n) { ExtendKeeps(v0, n, ch0, 0); }
      }
    }
  }

  lemma TailPosition(length: nat, size: nat, cl: nat)
    requires 0 < cl && Matches(length, size, cl)
    ensures Offset(size, cl) != 0 ==> 0 < length && size == (length - 1) * cl + Offset(size, cl)
    ensures Offset(size, cl) == 0 && 0 < size ==> 0 < length && size == length * cl
    ensures size == 0 ==> length <= 1
  {
    ClustersBounds(size, cl);
    var q, r := size / cl, Offset(size, cl);
    assert size == q * cl + r;
    assert (q + 1) * cl == q * cl + cl;
    if r != 0 { ClustersUnique(size, cl, q + 1); } else { ClustersUnique(size, cl, q); }
  }

  lemma {:induction false} TailFrame(v: Vol, n: nat, cl: nat, cs: seq<nat>, size: nat, c: nat)
    requires Appendable(v, n, cl, cs, size) && c < n && v.fat[c] != FREE && c !in cs
    ensures var (v1, ch) := Tail(v, n, cl, cs, size);
            |v1.fat| == |v.fat| && v1.fat[c] == v.fat[c] && c !in ch
  {
    BeginReady(v, n, cl, cs);
  }

  /** The write loop that carries out an append. */
  ghost predicate Appending(v: Vol, n: nat, cl: nat, cs: seq<nat>, size: nat, src: seq<byte>,
                            v1: Vol, ch: seq<nat>, i: nat, patch: seq<byte>, w: Outcome)
  {
    && Appendable(v, n, cl, cs, size) && src != []
    && Tail(v, n, cl, cs, size) == (v1, ch) && |ch| == i + 1 && Ready(v1, n, cl, ch, i)
    && patch == v1.data[ch[i]][..Offset(size, cl)] + src
    && w == WriteLoop(v1, n, cl, ch, i, patch)
  }

  lemma AppendLoop(v: Vol, n: nat, cl: nat, cs: seq<nat>, size: nat, src: seq<byte>)
    returns (v1: Vol, ch: seq<nat>, i: nat, patch: seq<byte>, w: Outcome)
    requires Appendable(v, n, cl, cs, size) && src != [] && Tail(v, n, cl, cs, size).1 != []
    ensures Appending(v, n, cl, cs, size, src, v1, ch, i, patch, w)
  {
    TailReady(v, n, cl, cs, size);
    var t := Tail(v, n, cl, cs, size);
    v1, ch, i := t.0, t.1, |t.1| - 1;
    ReadyShape(v1, n, cl, ch, i);
    patch := Patch(v1, cl, ch, size, src);
    w := WriteLoop(v1, n, cl, ch, i, patch);
  }

  lemma AppendingResult(v: Vol, n: nat, cl: nat, cs: seq<nat>, size: nat, src: seq<byte>,
                        v1: Vol, ch: seq<nat>, i: nat, patch: seq<byte>, w: Outcome)
    requires Appending(v, n, cl, cs, size, src, v1, ch, i, patch, w)
    ensures 0 < cl && |patch| == Offset(size, cl) + |src| && Offset(size, cl) <= w.written
    ensures var r := AppendFile(v, n, cl, cs, size, src);
            && r.v == w.v && r.cs == w.ch && r.written == w.written - Offset(size, cl)
            && r.size == (if r.written < |src| then size else size + r.written)
  {
    hide WriteLoop, Tail, Appendable, Ready, Sound, IsChain, Min, AppendAt;
    ReadyShape(v1, n, cl, ch, i);
    WriteAtLeast(v1, n, cl, ch, i, patch);
    MinIs(|patch|, cl);
  }

  lemma AppendingLoop(v: Vol, n: nat, cl: nat, cs: seq<nat>, size: nat, src: seq<byte>,
                      v1: Vol, ch: seq<nat>, i: nat, patch: seq<byte>, w: Outcome)
    requires Appending(v, n, cl, cs, size, src, v1, ch, i, patch, w)
    ensures Ready(v1, n, cl, ch, i) && Shape(v1.fat, n) && patch != [] && |ch| == i + 1
    ensures w == WriteLoop(v1, n, cl, ch, i, patch) && Ready(w.v, n, cl, w.ch, w.at)
    ensures Grown(v1, n, cl, ch, i, |patch|, w)
    ensures Overwritten(v1.data, w.v.data, Written(w, i), patch, w.written)
    ensures w.written <= |patch|
  {
    hide WriteLoop, Tail, Appendable;
    WriteLoopGrows(v1, n, cl, ch, i, patch);
    WriteLoopContent(v1, n, cl, ch, i, patch);
  }

  /** The first iteration alone writes a cluster, or everything. */
  lemma WriteAtLeast(v: Vol, n: nat, cl: nat, ch: seq<nat>, i: nat, src: seq<byte>)
    requires Ready(v, n, cl, ch, i) && 0 < |src|
    ensures Min(|src|, cl) <= WriteLoop(v, n, cl, ch, i, src).written
  {
    WriteLoopUnfold(v, n, cl, ch, i, src);
  }

  lemma FrontSplit(v: Vol, n: nat, cl: nat, ch: seq<nat>, size: nat, w: Outcome)
    requires Shape(v.fat, n) && ch != [] && Grown(v, n, cl, ch, |ch| - 1, size, w) && Distinct(w.ch)
    ensures w.ch == ch[..|ch| - 1] + Written(w, |ch| - 1)
    ensures forall j :: 0 <= j < |ch| - 1 ==> ch[j] !in Written(w, |ch| - 1)
  {
    var i := |ch| - 1;
    assert Written(w, i) == w.ch[i..];
    assert ch[..i] == w.ch[..i];
    forall j | 0 <= j < i ensures ch[j] !in w.ch[i..] {
      assert ch[j] == w.ch[j];
    }
  }

  /** The front of the chain, up to the tail cluster, is not touched. */
  lemma FrontKept(v: Vol, n: nat, cl: nat, ch: seq<nat>, i: nat, patch: seq<byte>, w: Outcome)
    requires Ready(v, n, cl, ch, i) && i == |ch| - 1 && patch != [] && w == WriteLoop(v, n, cl, ch, i, patch)
    ensures w.ch == ch[..i] + Written(w, i)
    ensures Concat(w.v.data, ch[..i]) == Concat(v.data, ch[..i])
  {
    var front := ch[..i];
    assert forall j :: 0 <= j < |front| ==> front[j] == ch[j] && ch[j] < n;
    hide *;
    ReadyShape(v, n, cl, ch, i);
    WriteLoopGrows(v, n, cl, ch, i, patch);
    ReadyShape(w.v, n, cl, w.ch, w.at);
    FrontSplit(v, n, cl, ch, |patch|, w);
    forall j | 0 <= j < |front| ensures Get(w.v.data, front[j]) == Get(v.data, front[j]) {
      WriteLoopFrame(v, n, cl, ch, i, patch, front[j]);
      assert front[j] !in Written(w, i);
      SameGet(w.v.data, v.data, front[j]);
    }
    ConcatFrame(w.v.data, v.data, front);
  }

  /** The bytes in front of the append position, in terms of the chain whose tail receives the data. */
  lemma OldBytes(v: Vol, n: nat, cl: nat, cs: seq<nat>, size: nat, ch: seq<nat>)
    requires Appendable(v, n, cl, cs, size) && ch != [] && ch == Tail(v, n, cl, cs, size).1
    ensures var front, last := ch[..|ch| - 1], ch[|ch| - 1];
            && last < |v.data| && |v.data[last]| == cl && 0 < cl
            && var at := AppendAt(|cs|, size, cl);
               && |Concat(v.data, front)| + Offset(size, cl) == at && at <= |Concat(v.data, cs)|
               && Concat(v.data, cs)[..at] == Concat(v.data, front) + v.data[last][..Offset(size, cl)]
  {
    hide *;
    TailForm(v, n, cl, cs, size, ch);
    var front, last, offset := ch[..|ch| - 1], ch[|ch| - 1], Offset(size, cl);
    OffsetBound(size, cl);
    UpTo(Concat(v.data, front), v.data[last], offset);
  }

  lemma UpTo(front: seq<byte>, last: seq<byte>, offset: nat)
    requires offset <= |last|
    ensures (front + last)[..|front| + offset] == front + last[..offset]
    ensures offset == 0 ==> front[..|front| + offset] == front + last[..offset]
  {
  }

  lemma TailForm(v: Vol, n: nat, cl: nat, cs: seq<nat>, size: nat, ch: seq<nat>)
    requires Appendable(v, n, cl, cs, size) && ch != [] && ch == Tail(v, n, cl, cs, size).1
    ensures var front, last := ch[..|ch| - 1], ch[|ch| - 1];
            && 0 < cl && last < |v.data| && |v.data[last]| == cl
            && |Concat(v.data, front)| == (|ch| - 1) * cl
            && AppendAt(|cs|, size, cl) == (|ch| - 1) * cl + Offset(size, cl)
            && Concat(v.data, ch) == Concat(v.data, front) + v.data[last]
            && (cs == ch || (cs == front && Offset(size, cl) == 0))
  {
    hide Appendable, Tail, Offset, AppendAt, Ready;
    TailReady(v, n, cl, cs, size);
    var (v1, _) := Tail(v, n, cl, cs, size);
    var front, last := ch[..|ch| - 1], ch[|ch| - 1];
    ReadyShape(v1, n, cl, ch, |ch| - 1);
    ReadyRange(v1, n, cl, ch, |ch| - 1);
    ConcatLength(v.data, front, cl);
  }

  lemma ReadyRange(v: Vol, n: nat, cl: nat, ch: seq<nat>, i: nat)
    requires Ready(v, n, cl, ch, i)
    ensures forall j :: 0 <= j < |ch| ==> 2 <= ch[j] < n && |v.data| == n && |v.data[ch[j]]| == cl
  {
  }

  /** After a successful append, to whatever chain, the chain has the clusters needed for the data at the
      append position, and holds the bytes it held before with the data written over them from there. */
  lemma ReadAfterAnyAppend(v: Vol, n: nat, cl: nat, cs: seq<nat>, size: nat, src: seq<byte>)
    requires Appendable(v, n, cl, cs, size) && src != [] && AppendFile(v, n, cl, cs, size, src).written == |src|
    ensures var r, at := AppendFile(v, n, cl, cs, size, src), AppendAt(|cs|, size, cl);
            var under, all := Concat(v.data, r.cs), Concat(r.v.data, r.cs);
            && r.size == size + |src| && |r.cs| == Clusters(at + |src|, cl)
            && cs <= r.cs && Chained(r.v, n, cl, r.cs)
            && at <= |Concat(v.data, cs)| && at + |src| <= |all| == |r.cs| * cl
            && all[..at + |src|] == Concat(v.data, cs)[..at] + src && Patched(under, all, at, src)
            && Content(r.v.data, r.cs, r.size) == all[..Min(size + |src|, |all|)]
  {
    hide *;
    var r := AppendFile(v, n, cl, cs, size, src);
    AppendableIs(v, n, cl, cs, size);
    ChainedPositive(v, n, cl, cs);
    TailExists(v, n, cl, cs, size, src);
    var v1, ch, i, patch, w := AppendLoop(v, n, cl, cs, size, src);
    AppendingResult(v, n, cl, cs, size, src, v1, ch, i, patch, w);
    AppendingLoop(v, n, cl, cs, size, src, v1, ch, i, patch, w);
    AppendedContent(v, n, cl, cs, size, src, v1, ch, i, patch, w);
    AppendedLength(v, n, cl, cs, size, src, v1, ch, i, patch, w);
    ReadyChained(w.v, n, cl, w.ch, w.at);
    ChainedLength(w.v, n, cl, w.ch);
    ContentIs(r.v.data, r.cs, r.size);
  }

  // ---------------------------------------------------------------- when an append appends

  /** The data is written, and a reader gets the old content followed by it. */
  ghost predicate Appends(v: Vol, n: nat, cl: nat, cs: seq<nat>, size: nat, src: seq<byte>)
    requires Appendable(v, n, cl, cs, size)
  {
    var r := AppendFile(v, n, cl, cs, size, src);
    r.written == |src| && Content(r.v.data, r.cs, r.size) == Content(v.data, cs, size) + src
  }

  /** The append position is the end of what a reader gets, and a reader of the new size gets nothing
      from behind the data. */
  predicate AtEnd(length: nat, size: nat, cl: nat, added: nat)
    requires 0 < cl
  {
    var at := AppendAt(length, size, cl);
    && at == Min(size, length * cl)
    && (at == size || at + added == Clusters(at + added, cl) * cl)
  }

  lemma AppendAtEndIs(length: nat, size: nat, cl: nat, added: nat)
    requires 0 < cl
    ensures var at := AppendAt(length, size, cl);
            AtEnd(length, size, cl, added) <==>
            at == Min(size, length * cl) && (at == size || at + added == Clusters(at + added, cl) * cl)
  {
  }

  /** What a reader gets from the bytes `all`, compared with the old content and the data. */
  lemma ReadAppended(before: seq<byte>, all: seq<byte>, at: nat, src: seq<byte>, size: nat)
    requires at <= |before| && at + |src| <= |all| && src != []
    requires all[..at + |src|] == before[..at] + src
    ensures var was := before[..Min(size, |before|)];
            && (at == |was| ==> (all[..Min(size + |src|, |all|)] == was + src <==> at == size || at + |src| == |all|))
            && (at != |was| && src[0] != before[Min(at, |was|)] ==> all[..Min(size + |src|, |all|)] != was + src)
  {
    var was, end := before[..Min(size, |before|)], Min(size + |src|, |all|);
    if at == |was| {
      assert was + src == all[..at + |src|];
      if end == at + |src| { assert all[..end] == was + src; }
    } else {
      var k := Min(at, |was|);
      assert all[..end][k] == (before[..at] + src)[k];
      assert (was + src)[k] == if at < |was| then before[k] else src[0];
    }
  }

  /** The exact condition for one piece of data, where it does not depend on the bytes; and a first byte
      that tells the two contents apart, where it does. */
  lemma AppendsOrNot(v: Vol, n: nat, cl: nat, cs: seq<nat>, size: nat, src: seq<byte>)
    requires Appendable(v, n, cl, cs, size) && src != [] && AppendFile(v, n, cl, cs, size, src).written == |src|
    ensures 0 < cl && |Concat(v.data, cs)| == |cs| * cl
    ensures var at, end := AppendAt(|cs|, size, cl), Min(size, |cs| * cl);
            && at <= |cs| * cl
            && (at == end ==> (Appends(v, n, cl, cs, size, src) <==> AtEnd(|cs|, size, cl, |src|)))
            && (at != end && src[0] != Concat(v.data, cs)[Min(at, end)] ==> !Appends(v, n, cl, cs, size, src))
  {
    hide *;
    AppendableIs(v, n, cl, cs, size);
    ChainedPositive(v, n, cl, cs);
    ChainedLength(v, n, cl, cs);
    var r, at := AppendFile(v, n, cl, cs, size, src), AppendAt(|cs|, size, cl);
    ReadAfterAnyAppend(v, n, cl, cs, size, src);
    ContentIs(v.data, cs, size);
    AppendsIs(v, n, cl, cs, size, src);
    AppendAtEndIs(|cs|, size, cl, |src|);
    MinIs(size, |cs| * cl);
    ReadAppended(Concat(v.data, cs), Concat(r.v.data, r.cs), at, src, size);
  }

  lemma AppendsIs(v: Vol, n: nat, cl: nat, cs: seq<nat>, size: nat, src: seq<byte>)
    requires Appendable(v, n, cl, cs, size)
    ensures var r := AppendFile(v, n, cl, cs, size, src);
            Appends(v, n, cl, cs, size, src) <==>
            r.written == |src| && Content(r.v.data, r.cs, r.size) == Content(v.data, cs, size) + src
  {
  }

  /** How far a write gets does not depend on the bytes. */
  lemma {:induction false} WriteLoopBlind(v: Vol, v': Vol, n: nat, cl: nat, ch: seq<nat>, i: nat, src: seq<byte>,
                                          src': seq<byte>)
    requires Ready(v, n, cl, ch, i) && Ready(v', n, cl, ch, i) && v' == v.(data := v'.data)
    requires 0 < |src| == |src'|
    ensures WriteLoop(v', n, cl, ch, i, src').written == WriteLoop(v, n, cl, ch, i, src).written
    decreases |src|
  {
    hide WriteLoop;
    WriteLoopUnfold(v, n, cl, ch, i, src);
    WriteLoopUnfold(v', n, cl, ch, i, src');
    if Continues(v, n, cl, ch, i, src) {
      var (v1, ch1) := NextState(v, n, cl, ch, i, src);
      var (v1', ch1') := NextState(v', n, cl, ch, i, src');
      WriteLoopBlind(v1, v1', n, cl, ch1, i + 1, src[cl..], src'[cl..]);
    }
  }

  lemma AppendBlind(v: Vol, n: nat, cl: nat, cs: seq<nat>, size: nat, src: seq<byte>, src': seq<byte>)
    requires Appendable(v, n, cl, cs, size) && 0 < |src| == |src'|
    ensures AppendFile(v, n, cl, cs, size, src').written == AppendFile(v, n, cl, cs, size, src).written
  {
    hide *;
    if Tail(v, n, cl, cs, size).1 == [] {
      if 0 < AppendFile(v, n, cl, cs, size, src).written { TailExists(v, n, cl, cs, size, src); }
      if 0 < AppendFile(v, n, cl, cs, size, src').written { TailExists(v, n, cl, cs, size, src'); }
    } else {
      var v1, ch, i, patch, w := AppendLoop(v, n, cl, cs, size, src);
      var v1', ch', i', patch', w' := AppendLoop(v, n, cl, cs, size, src');
      AppendingResult(v, n, cl, cs, size, src, v1, ch, i, patch, w);
      AppendingResult(v, n, cl, cs, size, src', v1', ch', i', patch', w');
      AppendingTail(v, n, cl, cs, size, src, v1, ch, i, patch, w);
      AppendingTail(v, n, cl, cs, size, src', v1', ch', i', patch', w');
      WriteLoopBlind(v1, v1', n, cl, ch, i, patch, patch');
    }
  }

  lemma AppendingTail(v: Vol, n: nat, cl: nat, cs: seq<nat>, size: nat, src: seq<byte>,
                      v1: Vol, ch: seq<nat>, i: nat, patch: seq<byte>, w: Outcome)
    requires Appending(v, n, cl, cs, size, src, v1, ch, i, patch, w)
    ensures Tail(v, n, cl, cs, size) == (v1, ch) && |ch| == i + 1 && Ready(v1, n, cl, ch, i)
    ensures patch != [] && w == WriteLoop(v1, n, cl, ch, i, patch)
  {
    hide WriteLoop, Tail, Ready, Appendable;
    ReadyShape(v1, n, cl, ch, i);
  }

  /** Data of a length that fits on the volume is appended, whatever its bytes, if and only if the driver's
      append position is the end of the file and no old bytes show behind the data. */
  lemma AppendsIff(v: Vol, n: nat, cl: nat, cs: seq<nat>, size: nat, src: seq<byte>)
    requires Appendable(v, n, cl, cs, size) && src != [] && AppendFile(v, n, cl, cs, size, src).written == |src|
    ensures 0 < cl
    ensures (forall other: seq<byte> :: |other| == |src| ==> Appends(v, n, cl, cs, size, other)) <==>
            AtEnd(|cs|, size, cl, |src|)
  {
    hide *;
    AppendsOrNot(v, n, cl, cs, size, src);
    AppendAtEndIs(|cs|, size, cl, |src|);
    var at, end := AppendAt(|cs|, size, cl), Min(size, |cs| * cl);
    MinIs(size, |cs| * cl);
    MinIs(at, end);
    if at == end {
      forall other: seq<byte> | |other| == |src|
        ensures Appends(v, n, cl, cs, size, other) <==> AtEnd(|cs|, size, cl, |src|)
      {
        AppendBlind(v, n, cl, cs, size, src, other);
        AppendsOrNot(v, n, cl, cs, size, other);
      }
    } else {
      var other := Other(Concat(v.data, cs)[Min(at, end)], |src|);
      AppendBlind(v, n, cl, cs, size, src, other);
      AppendsOrNot(v, n, cl, cs, size, other);
    }
  }

  /** Data that does not begin with the byte `b`. */
  function Other(b: byte, n: nat): (s: seq<byte>)
    requires 0 < n
    ensures |s| == n && s[0] != b
  {
    seq(n, _ => if b == 0 then 1 else 0)
  }

  /** A file is overwritten, and then something is appended to what that leaves. */
  ghost predicate OverwriteThenAppend(v: Vol, n: nat, cl: nat, cs: seq<nat>, size: nat, src: seq<byte>, more: seq<byte>,
                                      r: Result, a: Result)
  {
    && Chained(v, n, cl, cs) && r == WriteFile(v, n, cl, cs, size, src) && r.written == |src|
    && Appendable(r.v, n, cl, r.cs, r.size) && a == AppendFile(r.v, n, cl, r.cs, r.size, more) && a.written == |more|
  }

  /** A file of 1000 bytes in two clusters of 512 is overwritten by one byte, which cuts it to one cluster.
      A byte appended then lands at 488, inside the content, and the content does not grow. */
  lemma AppendAfterShrink() returns (r: Result, a: Result)
    ensures IsFile(TwoClusters(), 128, 512, [2, 3], 1000)
    ensures OverwriteThenAppend(TwoClusters(), 128, 512, [2, 3], 1000, [1], [2], r, a)
    ensures r.cs == [2] && r.size == 1000 && |Content(r.v.data, [2], 1000)| == 512
    ensures a.cs == [2] && a.size == 1001 && |Content(a.v.data, [2], 1001)| == 512
    ensures Content(a.v.data, [2], 1001)[488] == 2
    ensures Content(a.v.data, [2], 1001) != Content(r.v.data, [2], 1000) + [2]
  {
    hide *;
    var v, src: seq<byte>, more: seq<byte> := TwoClusters(), [1], [2];
    TwoClustersFile(1000);
    ShrinkLosesBytes(1000);
    r := WriteFile(v, 128, 512, [2, 3], 1000, src);
    AppendableIs(r.v, 128, 512, [2], 1000);
    LandsAt488();
    ShortAppend(r.v, 128, 512, [2], 1000, more);
    a := AppendFile(r.v, 128, 512, [2], 1000, more);
    ReadAfterAnyAppend(r.v, 128, 512, [2], 1000, more);
    assert a.cs == [2];
    MinIs(1001, 512);
    OverwriteThenAppendIf(v, 128, 512, [2, 3], 1000, src, more, r, a);
    assert Concat(a.v.data, [2])[..489][488] == 2;
  }

  lemma LandsAt488()
    ensures Offset(1000, 512) != 0 && Offset(1000, 512) + 1 <= 512 && AppendAt(1, 1000, 512) == 488
    ensures Clusters(489, 512) == 1
  {
  }

  lemma OverwriteThenAppendIf(v: Vol, n: nat, cl: nat, cs: seq<nat>, size: nat, src: seq<byte>, more: seq<byte>,
                              r: Result, a: Result)
    requires Chained(v, n, cl, cs) && r == WriteFile(v, n, cl, cs, size, src) && r.written == |src|
    requires Appendable(r.v, n, cl, r.cs, r.size) && a == AppendFile(r.v, n, cl, r.cs, r.size, more)
    requires a.written == |more|
    ensures OverwriteThenAppend(v, n, cl, cs, size, src, more, r, a)
  {
  }

  /** Data that fits in the last cluster is written. */
  lemma ShortAppend(v: Vol, n: nat, cl: nat, cs: seq<nat>, size: nat, src: seq<byte>)
    requires Appendable(v, n, cl, cs, size) && cs != [] && src != [] && 0 < cl
    requires Offset(size, cl) != 0 && Offset(size, cl) + |src| <= cl
    ensures AppendFile(v, n, cl, cs, size, src).written == |src|
  {
    assert Tail(v, n, cl, cs, size).1 == cs;
    hide *;
    var v1, ch, i, patch, w := AppendLoop(v, n, cl, cs, size, src);
    AppendingResult(v, n, cl, cs, size, src, v1, ch, i, patch, w);
    AppendingLoop(v, n, cl, cs, size, src, v1, ch, i, patch, w);
    WriteAtLeast(v1, n, cl, ch, i, patch);
    MinIs(|patch|, cl);
  }

  /** After a successful append to a file whose chain matches its size, a reader gets the old content
      followed by the data, and the chain has just the clusters the new size needs. */
  lemma ReadAfterAppend(v: Vol, n: nat, cl: nat, cs: seq<nat>, size: nat, src: seq<byte>)
    requires IsFile(v, n, cl, cs, size) && src != [] && AppendFile(v, n, cl, cs, size, src).written == |src|
    ensures var r := AppendFile(v, n, cl, cs, size, src);
            && Content(r.v.data, r.cs, r.size) == Content(v.data, cs, size) + src
            && r.size == size + |src| && |r.cs| == Clusters(r.size, cl)
            && cs <= r.cs && IsFile(r.v, n, cl, r.cs, r.size)
  {
    hide *;
    FileIsAppendable(v, n, cl, cs, size);
    FileLengths(v, n, cl, cs, size);
    ReadAfterAnyAppend(v, n, cl, cs, size, src);
    AppendAtEndIs(|cs|, size, cl, |src|);
    MinIs(size, |cs| * cl);
    AppendsOrNot(v, n, cl, cs, size, src);
    AppendsIs(v, n, cl, cs, size, src);
    var r := AppendFile(v, n, cl, cs, size, src);
    MatchingIsFile(r.v, n, cl, r.cs, r.size);
  }

  lemma TailExists(v: Vol, n: nat, cl: nat, cs: seq<nat>, size: nat, src: seq<byte>)
    requires Appendable(v, n, cl, cs, size) && 0 < AppendFile(v, n, cl, cs, size, src).written
    ensures Tail(v, n, cl, cs, size).1 != []
  {
    hide WriteLoop, Tail, Patch;
  }

  lemma AppendedContent(v: Vol, n: nat, cl: nat, cs: seq<nat>, size: nat, src: seq<byte>,
                        v1: Vol, ch: seq<nat>, i: nat, patch: seq<byte>, w: Outcome)
    requires Appending(v, n, cl, cs, size, src, v1, ch, i, patch, w) && w.written == |patch|
    ensures 0 < cl
    ensures var at, all := AppendAt(|cs|, size, cl), Concat(w.v.data, w.ch);
            && at <= |Concat(v.data, cs)| && at + |src| <= |all|
            && all[..at + |src|] == Concat(v.data, cs)[..at] + src
            && Patched(Concat(v.data, w.ch), all, at, src)
  {
    hide *;
    AppendingIs(v, n, cl, cs, size, src, v1, ch, i, patch, w);
    AppendingLoop(v, n, cl, cs, size, src, v1, ch, i, patch, w);
    OldBytes(v, n, cl, cs, size, ch);
    FrontKept(v1, n, cl, ch, i, patch, w);
    AppendedBytes(v.data, ch[..i], v.data[ch[i]][..Offset(size, cl)], src, w.v.data, w.ch, Written(w, i));
    AppendedLength(v, n, cl, cs, size, src, v1, ch, i, patch, w);
    PrefixConcat(v.data, cs, w.ch);
    PatchedIf(Concat(v.data, w.ch), Concat(w.v.data, w.ch), AppendAt(|cs|, size, cl), src, Concat(v.data, cs));
  }

  /** The bytes `under` with `src` written over them from `at` on. */
  ghost predicate Patched(under: seq<byte>, all: seq<byte>, at: nat, src: seq<byte>) {
    at + |src| <= |under| && all == under[..at] + src + under[at + |src|..]
  }

  lemma PatchedIf(under: seq<byte>, all: seq<byte>, at: nat, src: seq<byte>, was: seq<byte>)
    requires was <= under && at <= |was| && at + |src| <= |all| == |under|
    requires all[..at + |src|] == was[..at] + src && all[at + |src|..] == under[at + |src|..]
    ensures Patched(under, all, at, src)
  {
    assert all == all[..at + |src|] + all[at + |src|..];
    assert under[..at] == was[..at];
  }

  lemma AppendingIs(v: Vol, n: nat, cl: nat, cs: seq<nat>, size: nat, src: seq<byte>,
                    v1: Vol, ch: seq<nat>, i: nat, patch: seq<byte>, w: Outcome)
    requires Appending(v, n, cl, cs, size, src, v1, ch, i, patch, w)
    ensures Appendable(v, n, cl, cs, size) && v1.data == v.data && ch == Tail(v, n, cl, cs, size).1 && |ch| == i + 1
    ensures 0 < cl && ch[i] < |v.data| && Offset(size, cl) <= |v.data[ch[i]]|
    ensures patch == v.data[ch[i]][..Offset(size, cl)] + src
  {
    TailReady(v, n, cl, cs, size);
    hide WriteLoop, Tail;
  }

  lemma AppendedBytes(data: seq<seq<byte>>, front: seq<nat>, kept: seq<byte>, src: seq<byte>,
                      data': seq<seq<byte>>, ch: seq<nat>, back: seq<nat>)
    requires Overwritten(data, data', back, kept + src, |kept + src|)
    requires ch == front + back && Concat(data', front) == Concat(data, front)
    ensures var at := |Concat(data, front)| + |kept|;
            && at + |src| <= |Concat(data', ch)| == |Concat(data, ch)|
            && Concat(data', ch)[..at + |src|] == Concat(data, front) + kept + src
            && Concat(data', ch)[at + |src|..] == Concat(data, ch)[at + |src|..]
  {
    hide Concat;
    var patch := kept + src;
    ConcatSplit(data', front, back);
    ConcatSplit(data, front, back);
    assert Concat(data, ch)[|Concat(data, front)| + |patch|..] == Concat(data, back)[|patch|..];
    Regroup(Concat(data, front), kept, src, Concat(data, back)[|patch|..], patch[..|patch|]);
  }

  lemma Regroup(front: seq<byte>, kept: seq<byte>, src: seq<byte>, rest: seq<byte>, patch: seq<byte>)
    requires patch == kept + src
    ensures var all, n := front + (patch + rest), |front| + |kept| + |src|;
            n <= |all| && all[..n] == front + kept + src && all[n..] == rest
  {
  }

  lemma AppendingStart(v: Vol, n: nat, cl: nat, cs: seq<nat>, size: nat, src: seq<byte>,
                       v1: Vol, ch: seq<nat>, i: nat, patch: seq<byte>, w: Outcome)
    requires Appending(v, n, cl, cs, size, src, v1, ch, i, patch, w)
    ensures cs <= ch && ch != [] && src != [] && 0 < cl
    ensures AppendAt(|cs|, size, cl) == (|ch| - 1) * cl + Offset(size, cl)
  {
    hide WriteLoop, Tail, Ready, Offset, AppendAt;
    TailReady(v, n, cl, cs, size);
  }

  lemma AppendedLength(v: Vol, n: nat, cl: nat, cs: seq<nat>, size: nat, src: seq<byte>,
                       v1: Vol, ch: seq<nat>, i: nat, patch: seq<byte>, w: Outcome)
    requires Appending(v, n, cl, cs, size, src, v1, ch, i, patch, w) && w.written == |patch|
    ensures 0 < cl && cs <= w.ch && |w.ch| == Clusters(AppendAt(|cs|, size, cl) + |src|, cl)
  {
    hide *;
    AppendingStart(v, n, cl, cs, size, src, v1, ch, i, patch, w);
    AppendingResult(v, n, cl, cs, size, src, v1, ch, i, patch, w);
    AppendingLoop(v, n, cl, cs, size, src, v1, ch, i, patch, w);
    OffsetBound(size, cl);
    AppendLength(v1, n, cl, ch, Offset(size, cl), |src|, w);
  }

  lemma OffsetBound(size: nat, cl: nat)
    requires 0 < cl
    ensures Offset(size, cl) < cl
  {
  }

  lemma ReadyChained(v: Vol, n: nat, cl: nat, ch: seq<nat>, i: nat)
    requires Ready(v, n, cl, ch, i)
    ensures Chained(v, n, cl, ch)
  {
  }

  lemma AppendLength(v: Vol, n: nat, cl: nat, ch: seq<nat>, offset: nat, added: nat, w: Outcome)
    requires Shape(v.fat, n) && 0 < cl && ch != [] && 0 < added && offset < cl
    requires Grown(v, n, cl, ch, |ch| - 1, offset + added, w) && w.written == offset + added
    ensures |w.ch| == w.at + 1 == Clusters((|ch| - 1) * cl + offset + added, cl) && ch <= w.ch
  {
    var i, a := |ch| - 1, w.at - (|ch| - 1);
    assert (w.at + 1) * cl == i * cl + a * cl + cl;
    ClustersUnique(i * cl + offset + added, cl, w.at + 1);
  }

  /** Whatever the outcome, the file is left on a proper chain, the append stops short only on a full
      volume, and a known free count stays exact. */
  lemma AppendFileSafe(v: Vol, n: nat, cl: nat, cs: seq<nat>, size: nat, src: seq<byte>)
    requires Appendable(v, n, cl, cs, size)
    ensures var r := AppendFile(v, n, cl, cs, size, src);
            && Sound(r.v, n, cl) && |r.v.fat| == |v.fat|
            && (r.cs == [] || IsChain(r.v.fat, n, r.cs))
            && r.written <= |src| && (r.written < |src| ==> !HasFree(r.v.fat, n))
            && (CountExact(v, n) ==> CountExact(r.v, n))
  {
    TailReady(v, n, cl, cs, size);
    var (v1, ch) := Tail(v, n, cl, cs, size);
    if src != [] && ch == [] {
      BeginReady(v, n, cl, cs);
    } else if src != [] {
      var v2, ch2, i, patch, w := AppendLoop(v, n, cl, cs, size, src);
      AppendingResult(v, n, cl, cs, size, src, v2, ch2, i, patch, w);
      AppendingLoop(v, n, cl, cs, size, src, v2, ch2, i, patch, w);
      assert (v2, ch2) == (v1, ch);
      hide WriteLoop, AppendFile, Tail, Overwritten, Appending;
      WriteLoopFrame(v1, n, cl, ch, i, patch, 0);
      if CountExact(v, n) { WriteLoopCount(v1, n, cl, ch, i, patch); }
    }
  }

  /** Whatever the outcome, a cluster in use by anyone else keeps its entry and its bytes. */
  lemma AppendFileFrame(v: Vol, n: nat, cl: nat, cs: seq<nat>, size: nat, src: seq<byte>, c: nat)
    requires Appendable(v, n, cl, cs, size) && 2 <= c < n && v.fat[c] != FREE && c !in cs
    ensures var r := AppendFile(v, n, cl, cs, size, src);
            |r.v.fat| == |v.fat| && |r.v.data| == n && r.v.fat[c] == v.fat[c] && r.v.data[c] == v.data[c] && c !in r.cs
  {
    TailReady(v, n, cl, cs, size);
    TailFrame(v, n, cl, cs, size, c);
    var (v1, ch) := Tail(v, n, cl, cs, size);
    if src != [] && ch != [] {
      var v2, ch2, i, patch, w := AppendLoop(v, n, cl, cs, size, src);
      AppendingResult(v, n, cl, cs, size, src, v2, ch2, i, patch, w);
      AppendingLoop(v, n, cl, cs, size, src, v2, ch2, i, patch, w);
      assert (v2, ch2) == (v1, ch);
      hide WriteLoop, Tail, AppendFile, Patch, Overwritten, Appending;
      WriteLoopFrame(v1, n, cl, ch, i, patch, c);
      TailAvoids(v1, n, cl, ch, |patch|, w, c);
    }
  }

  lemma TailAvoids(v: Vol, n: nat, cl: nat, ch: seq<nat>, size: nat, w: Outcome, c: nat)
    requires Shape(v.fat, n) && ch != [] && Grown(v, n, cl, ch, |ch| - 1, size, w)
    requires c < |v.fat| && v.fat[c] != FREE && c !in ch
    ensures c !in w.ch && c !in Written(w, |ch| - 1)
  {
    forall j | 0 <= j < |w.ch| ensures w.ch[j] != c {
      if j < |ch| { assert ch[j] in ch; }
    }
  }

  /** Every other file keeps its chain and its contents. */
  lemma AppendLeavesOthers(v: Vol, n: nat, cl: nat, cs: seq<nat>, size: nat, src: seq<byte>, ws: seq<nat>)
    requires Appendable(v, n, cl, cs, size) && IsChain(v.fat, n, ws) && Disjoint(ws, cs)
    ensures var r := AppendFile(v, n, cl, cs, size, src);
            && n <= |r.v.fat| && IsChain(r.v.fat, n, ws) && Disjoint(ws, r.cs)
            && Concat(r.v.data, ws) == Concat(v.data, ws)
  {
    var r := AppendFile(v, n, cl, cs, size, src);
    forall c | c in ws
      ensures |r.v.fat| == |v.fat| && |r.v.data| == n && 2 <= c < n
      ensures r.v.fat[c] == v.fat[c] && r.v.data[c] == v.data[c] && c !in r.cs
    {
      UsedOnChain(v.fat, n, ws, c);
      AppendFileFrame(v, n, cl, cs, size, src, c);
    }
    assert ws[0] in ws && |v.data| == n;
    assert forall i :: 0 <= i < |ws| ==> ws[i] in ws;
    hide AppendFile, Concat, Appendable;
    ChainFrame(v.fat, r.v.fat, n, ws);
    ConcatFrame(v.data, r.v.data, ws);
  }
}
