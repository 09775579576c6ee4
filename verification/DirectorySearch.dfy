/** Which entry a search by name finds, which file a rename changes and where a new file is put, told by what
    stands in the directory and not by how the loops go through it. */
module DirectorySearch {
  import opened Basics
  import opened Bytes
  import opened DirEntry
  import opened LongNames
  import opened ShortNames
  import opened Directory

  // ---------------------------------------------------------------- the text of long-name pieces

  /** The low bytes of the characters in front of the terminator, without padding. */
  function RunText(chars: seq<int>): seq<byte> {
    if chars == [] || chars[0] == 0 then []
    else (if chars[0] == PAD then [] else [chars[0] % 0x100]) + RunText(chars[1..])
  }

  /** The text of a piece: its three runs of five, six and two characters, each up to its own terminator. */
  function PieceText(e: Entry): seq<byte> {
    RunText(Chars(e, 0, 5)) + RunText(Chars(e, 5, 11)) + RunText(Chars(e, 11, 13))
  }

  /** The texts of pieces, first one first ... */
  function Forward(ps: seq<Entry>): seq<byte> {
    if ps == [] then [] else PieceText(ps[0]) + Forward(ps[1..])
  }

  /** ... and last one first. */
  function Backward(ps: seq<Entry>): seq<byte> {
    if ps == [] then [] else PieceText(ps[|ps| - 1]) + Backward(ps[..|ps| - 1])
  }

  function Cut(s: seq<byte>, n: nat): seq<byte> {
    if n < |s| then s[..n] else s
  }

  lemma {:induction false} SegmentIsText(chars: seq<int>, room: nat)
    requires 1 <= room
    ensures CopySegment(chars, room) == Cut(RunText(chars), room - 1)
    decreases |chars|
  {
    if chars != [] && room > 1 && chars[0] != 0 {
      if chars[0] == PAD {
        SegmentIsText(chars[1..], room);
      } else {
        SegmentIsText(chars[1..], room - 1);
      }
    }
  }

  lemma CutJoin(a: seq<byte>, b: seq<byte>, n: nat)
    ensures |Cut(a, n)| <= n && Cut(a + b, n) == Cut(a, n) + Cut(b, n - |Cut(a, n)|)
  {
  }

  lemma PieceIsText(e: Entry, room: nat)
    requires 1 <= room
    ensures CopyPiece(e, room) == Cut(PieceText(e), room - 1)
  {
    hide CopySegment, RunText, Chars, Cut;
    var a, b, c := RunText(Chars(e, 0, 5)), RunText(Chars(e, 5, 11)), RunText(Chars(e, 11, 13));
    CutJoin(a, b, room - 1);
    CutJoin(a + b, c, room - 1);
    SegmentIsText(Chars(e, 0, 5), room);
    SegmentIsText(Chars(e, 5, 11), room - |Cut(a, room - 1)|);
    CutJoin(b, c, room - 1 - |Cut(a, room - 1)|);
    SegmentIsText(Chars(e, 11, 13), room - |Cut(a, room - 1)| - |Cut(b, room - 1 - |Cut(a, room - 1)|)|);
  }

  /** Rebuilding a name joins the texts of the pieces, as far as there is room. */
  lemma {:induction false} RebuildIsText(ps: seq<Entry>, room: nat)
    requires 1 <= room
    ensures Rebuild(ps, room) == Cut(Forward(ps), room - 1)
    decreases |ps|
  {
    hide PieceText, CopyPiece, Cut;
    if ps != [] {
      PieceIsText(ps[0], room);
      CutJoin(PieceText(ps[0]), Forward(ps[1..]), room - 1);
      RebuildIsText(ps[1..], room - |CopyPiece(ps[0], room)|);
    } else {
      CutNone(room - 1);
    }
  }

  lemma CutNone(n: nat)
    ensures Cut([], n) == []
  {
  }

  lemma {:induction false} BackwardIs(ps: seq<Entry>)
    ensures Forward(Reverse(ps)) == Backward(ps)
    decreases |ps|
  {
    hide PieceText;
    if ps != [] {
      var init := ps[..|ps| - 1];
      assert Reverse(ps)[1..] == Reverse(init);
      BackwardIs(init);
    }
  }

  /** A buffer holds the C string `name`: its bytes up to the first zero. */
  predicate Spells(text: seq<byte>, name: seq<byte>) {
    name <= text && Printable(name) && (|name| < |text| ==> text[|name|] == 0)
  }

  lemma {:induction false} SpellsIff(text: seq<byte>, name: seq<byte>)
    ensures CString(text) == name <==> Spells(text, name)
    decreases |text|
  {
    if text != [] && text[0] != 0 {
      if name != [] && name[0] == text[0] {
        SpellsIff(text[1..], name[1..]);
        assert name == [name[0]] + name[1..];
        assert Printable(name) <==> Printable(name[1..]);
      }
    }
  }

  // ---------------------------------------------------------------- what stands in front of an entry

  /** The first slot, from `i` on, that is free and ends the cluster. */
  function EndFrom(buf: seq<byte>, i: nat): (r: nat)
    requires i <= SlotCount(buf)
    ensures i <= r <= SlotCount(buf)
    ensures forall k :: i <= k < r ==> First(buf, k) != 0x00
    ensures r < SlotCount(buf) ==> First(buf, r) == 0x00
    decreases SlotCount(buf) - i
  {
    if SlotCount(buf) <= i || First(buf, i) == 0x00 then i else EndFrom(buf, i + 1)
  }

  function End(buf: seq<byte>): (r: nat)
    ensures r <= SlotCount(buf)
  {
    EndFrom(buf, 0)
  }

  predicate IsPiece(e: Entry) {
    e[0] != 0x00 && e[0] != 0xE5 && Attr(e) == ATTR_LFN
  }

  /** How many long-name pieces stand directly in front of slot `i`. */
  function PieceRun(buf: seq<byte>, i: nat): (r: nat)
    requires i <= SlotCount(buf)
    ensures r <= i
  {
    if 0 < i && IsPiece(Slot(buf, i - 1)) then PieceRun(buf, i - 1) + 1 else 0
  }

  /** The slots of those pieces, the first twenty of them. */
  function PieceSlotsOf(buf: seq<byte>, i: nat): (r: seq<nat>)
    requires i <= SlotCount(buf)
    ensures |r| == Min(PieceRun(buf, i), MAX_PIECES)
    ensures forall k :: 0 <= k < |r| ==> r[k] == i - PieceRun(buf, i) + k
  {
    seq(Min(PieceRun(buf, i), MAX_PIECES), k requires 0 <= k => i - PieceRun(buf, i) + k)
  }

  /** The pieces in front of slot `i` of cluster `j`, those at the end of earlier clusters included. */
  function PiecesBefore(bufs: Clusters, j: nat, i: nat): seq<Entry>
    requires j < |bufs| && i <= SlotCount(bufs[j])
    decreases j, i
  {
    if i == 0 then (if j == 0 then [] else PiecesBefore(bufs, j - 1, End(bufs[j - 1])))
    else if IsPiece(Slot(bufs[j], i - 1)) then PiecesBefore(bufs, j, i - 1) + [Slot(bufs[j], i - 1)]
    else []
  }

  function Capped<T>(ps: seq<T>): seq<T> {
    if MAX_PIECES < |ps| then ps[..MAX_PIECES] else ps
  }

  // ---------------------------------------------------------------- the search by name

  /** The pieces belong to the entry and spell `name`. */
  predicate LongNamed(ps: seq<Entry>, e: Entry, text: seq<byte>, name: seq<byte>) {
    ps != [] && ps[|ps| - 1][13] == Checksum(ShortName(e)) && Spells(Cut(text, NAME_BUFFER - 1), name)
  }

  /** The search by name takes the file in slot `i` of cluster `j` for `name`: its short name is the short form
      of the name, or the pieces in front of it carry its checksum and spell the name last piece first. */
  ghost predicate Named(bufs: Clusters, j: nat, i: nat, name: seq<byte>) {
    && j < |bufs| && i < End(bufs[j]) && IsValidSfn(Slot(bufs[j], i))
    && var e, ps := Slot(bufs[j], i), Capped(PiecesBefore(bufs, j, i));
       ShortName(e) == To83(name) || LongNamed(ps, e, Backward(ps), name)
  }

  /** Slot `i` of cluster `j` comes before slot `m` of cluster `k`. */
  predicate Before(j: nat, i: nat, k: nat, m: nat) {
    j < k || (j == k && i < m)
  }

  lemma MatchIff(ps: seq<Entry>, e: Entry, name: seq<byte>)
    ensures LongNameMatches(ps, e, name) <==> LongNamed(ps, e, Backward(ps), name)
  {
    hide Backward, Spells, Cut, Rebuild, CString, Checksum, Reverse, Forward;
    RebuildIsText(Reverse(ps), NAME_BUFFER);
    BackwardIs(ps);
    SpellsIff(Cut(Backward(ps), NAME_BUFFER - 1), name);
  }

  lemma CappedStep(ps: seq<Entry>, e: Entry)
    ensures Collect(Capped(ps), e) == Capped(ps + [e]) && Capped<Entry>([]) == []
  {
  }

  /** One slot further. */
  lemma PiecesNext(bufs: Clusters, j: nat, i: nat)
    requires j < |bufs| && i < SlotCount(bufs[j])
    ensures var e := Slot(bufs[j], i);
            PiecesBefore(bufs, j, i + 1) == if IsPiece(e) then PiecesBefore(bufs, j, i) + [e] else []
  {
  }

  /** One turn of the scan. */
  lemma ScanTurn(buf: seq<byte>, i: nat, pieces: seq<Entry>, name: seq<byte>)
    requires i < SlotCount(buf) && First(buf, i) != 0x00
    ensures var e := Slot(buf, i);
            ScanAny(buf, i, pieces, name) ==
            if IsPiece(e) then ScanAny(buf, i + 1, Collect(pieces, e), name)
            else if IsValidSfn(e) && (LongNameMatches(pieces, e, name) || ShortName(e) == To83(name))
            then Scan(Some(i), [])
            else ScanAny(buf, i + 1, [], name)
  {
    hide LongNameMatches, To83, Collect, IsVolumeLabel;
  }

  lemma ScanEnd(buf: seq<byte>, pieces: seq<Entry>, name: seq<byte>)
    ensures ScanAny(buf, End(buf), pieces, name) == Scan(None, pieces)
  {
  }

  lemma EndIs(buf: seq<byte>, i: nat)
    requires i < End(buf)
    ensures i < SlotCount(buf) && First(buf, i) != 0x00
  {
  }

  lemma NamedIff(bufs: Clusters, j: nat, i: nat, name: seq<byte>)
    requires j < |bufs|
    ensures End(bufs[j]) <= i ==> !Named(bufs, j, i, name)
    ensures i < End(bufs[j]) ==>
              var e, ps := Slot(bufs[j], i), Capped(PiecesBefore(bufs, j, i));
              Named(bufs, j, i, name) <==>
              !IsPiece(e) && IsValidSfn(e) && (LongNamed(ps, e, Backward(ps), name) || ShortName(e) == To83(name))
  {
    hide LongNamed, PiecesBefore, Capped, Backward, To83;
  }

  /** What a scan from slot `i` of cluster `j` comes to: the first slot that is named so, or none and the pieces
      at the end. */
  ghost predicate Stops(bufs: Clusters, j: nat, i: nat, name: seq<byte>, r: Scan)
    requires j < |bufs|
  {
    match r.found
    case Some(k) => i <= k && Named(bufs, j, k, name) && forall m: nat :: i <= m < k ==> !Named(bufs, j, m, name)
    case None =>
      && (forall m: nat :: i <= m ==> !Named(bufs, j, m, name))
      && r.pieces == Capped(PiecesBefore(bufs, j, End(bufs[j])))
  }

  lemma StopsHere(bufs: Clusters, j: nat, i: nat, name: seq<byte>, r: Scan)
    requires j < |bufs|
    requires if r.found == Some(i) then Named(bufs, j, i, name)
             else !Named(bufs, j, i, name) && Stops(bufs, j, i + 1, name, r)
    ensures Stops(bufs, j, i, name, r)
  {
    hide Named, PiecesBefore, Capped;
  }

  lemma {:induction false} ScanStops(bufs: Clusters, j: nat, i: nat, name: seq<byte>)
    requires j < |bufs| && i <= End(bufs[j])
    ensures Stops(bufs, j, i, name, ScanAny(bufs[j], i, Capped(PiecesBefore(bufs, j, i)), name))
    decreases End(bufs[j]) - i
  {
    hide *;
    var buf := bufs[j];
    var ps := PiecesBefore(bufs, j, i);
    if i < End(buf) {
      EndIs(buf, i);
      var e := Slot(buf, i);
      var r := ScanAny(buf, i, Capped(ps), name);
      ScanTurn(buf, i, Capped(ps), name);
      MatchIff(Capped(ps), e, name);
      CappedStep(ps, e);
      PiecesNext(bufs, j, i);
      NamedIff(bufs, j, i, name);
      ScanStops(bufs, j, i + 1, name);
      StopsHere(bufs, j, i, name, r);
    } else {
      ScanEnd(buf, Capped(ps), name);
      StopsAtEnd(bufs, j, name);
    }
  }

  lemma StopsAtEnd(bufs: Clusters, j: nat, name: seq<byte>)
    requires j < |bufs|
    ensures Stops(bufs, j, End(bufs[j]), name, Scan(None, Capped(PiecesBefore(bufs, j, End(bufs[j])))))
  {
    forall m: nat | End(bufs[j]) <= m ensures !Named(bufs, j, m, name) { NamedIff(bufs, j, m, name); }
    hide Named, PiecesBefore, Capped, End;
  }

  /** What the search from cluster `j` on comes to. */
  ghost predicate Finds(bufs: Clusters, j: nat, name: seq<byte>, r: Option<Position>) {
    match r
    case Some(p) =>
      && j <= p.index && Named(bufs, p.index, p.slot, name)
      && (forall k: nat, m: nat :: j <= k && Before(k, m, p.index, p.slot) ==> !Named(bufs, k, m, name))
    case None => forall k: nat, m: nat :: j <= k ==> !Named(bufs, k, m, name)
  }

  lemma FindsHere(bufs: Clusters, j: nat, name: seq<byte>, s: Scan, r: Option<Position>)
    requires j < |bufs| && Stops(bufs, j, 0, name, s)
    requires if s.found.Some? then r == Some(Position(j, s.found.value)) else Finds(bufs, j + 1, name, r)
    ensures Finds(bufs, j, name, r)
  {
    hide Named, PiecesBefore, Capped;
  }

  /** The search from cluster `j` on. */
  lemma {:induction false} FindStops(bufs: Clusters, j: nat, name: seq<byte>)
    requires j < |bufs|
    ensures Finds(bufs, j, name, FindAny(bufs, j, Capped(PiecesBefore(bufs, j, 0)), name))
    decreases |bufs| - j
  {
    hide *;
    var ps := Capped(PiecesBefore(bufs, j, 0));
    var s := ScanAny(bufs[j], 0, ps, name);
    EndIsFrom(bufs[j]);
    ScanStops(bufs, j, 0, name);
    FindTurn(bufs, j, ps, name);
    if s.found.None? {
      StopsPieces(bufs, j, name, s);
      if j + 1 < |bufs| {
        PiecesCarried(bufs, j);
        FindStops(bufs, j + 1, name);
      } else {
        BeyondEnd(bufs, name);
      }
    }
    FindsHere(bufs, j, name, s, FindAny(bufs, j, ps, name));
  }

  lemma EndIsFrom(buf: seq<byte>)
    ensures 0 <= End(buf)
  {
  }

  lemma FindTurn(bufs: Clusters, j: nat, ps: seq<Entry>, name: seq<byte>)
    requires j < |bufs|
    ensures var s := ScanAny(bufs[j], 0, ps, name);
            FindAny(bufs, j, ps, name) ==
            if s.found.Some? then Some(Position(j, s.found.value)) else FindAny(bufs, j + 1, s.pieces, name)
  {
    hide ScanAny;
  }

  lemma StopsPieces(bufs: Clusters, j: nat, name: seq<byte>, s: Scan)
    requires j < |bufs| && Stops(bufs, j, 0, name, s) && s.found.None?
    ensures s.pieces == Capped(PiecesBefore(bufs, j, End(bufs[j])))
  {
    hide Named, PiecesBefore, Capped;
  }

  lemma PiecesCarried(bufs: Clusters, j: nat)
    requires j + 1 < |bufs|
    ensures PiecesBefore(bufs, j + 1, 0) == PiecesBefore(bufs, j, End(bufs[j]))
  {
  }

  lemma BeyondEnd(bufs: Clusters, name: seq<byte>)
    ensures forall ps :: FindAny(bufs, |bufs|, ps, name) == None
    ensures Finds(bufs, |bufs|, name, None)
  {
  }

  /** The search by name finds nothing if and only if nothing in the directory is named so ... */
  lemma FindNoneIff(bufs: Clusters, name: seq<byte>)
    ensures FindAny(bufs, 0, [], name) == None <==> forall j: nat, i: nat :: !Named(bufs, j, i, name)
  {
    if bufs == [] {
      BeyondEnd(bufs, name);
    } else {
      assert PiecesBefore(bufs, 0, 0) == [] && Capped<Entry>([]) == [];
      FindStops(bufs, 0, name);
      hide FindAny, Named;
    }
  }

  /** ... and otherwise the first slot that is. */
  lemma FindFirstIff(bufs: Clusters, name: seq<byte>, p: Position)
    ensures FindAny(bufs, 0, [], name) == Some(p) <==>
            && Named(bufs, p.index, p.slot, name)
            && (forall j: nat, i: nat :: Before(j, i, p.index, p.slot) ==> !Named(bufs, j, i, name))
  {
    if bufs == [] {
      BeyondEnd(bufs, name);
    } else {
      assert PiecesBefore(bufs, 0, 0) == [] && Capped<Entry>([]) == [];
      FindStops(bufs, 0, name);
      hide FindAny, Named;
    }
  }

  // ---------------------------------------------------------------- the file that a rename changes

  /** The entries in the given slots. */
  function EntriesAt(buf: seq<byte>, at: seq<nat>): (r: seq<Entry>)
    requires forall k :: 0 <= k < |at| ==> at[k] < SlotCount(buf)
    ensures |r| == |at| && forall k :: 0 <= k < |at| ==> r[k] == Slot(buf, at[k])
  {
    seq(|at|, k requires 0 <= k < |at| => Slot(buf, at[k]))
  }

  /** A rename takes the file in slot `i` of a cluster for `name`: its short name is the short form of the name,
      or the pieces in front of it in the cluster carry its checksum and spell the name in their order. */
  ghost predicate Called(buf: seq<byte>, i: nat, name: seq<byte>) {
    && i < End(buf) && IsValidSfn(Slot(buf, i))
    && var e, ps := Slot(buf, i), EntriesAt(buf, PieceSlotsOf(buf, i));
       ShortName(e) == To83(name) || LongNamed(ps, e, Forward(ps), name)
  }

  lemma OldNameIff(buf: seq<byte>, at: seq<nat>, e: Entry, name: seq<byte>)
    requires forall k :: 0 <= k < |at| ==> at[k] < SlotCount(buf)
    ensures var ps := EntriesAt(buf, at);
            OldNameMatches(buf, at, e, name) <==> LongNamed(ps, e, Forward(ps), name) || ShortName(e) == To83(name)
  {
    hide Forward, Spells, Cut, Rebuild, CString, Checksum, Reverse, To83;
    var ps := EntriesAt(buf, at);
    assert PiecesAt(buf, at) == ps;
    TwiceReversed(ps);
    RebuildIsText(ps, NAME_BUFFER);
    SpellsIff(Cut(Forward(ps), NAME_BUFFER - 1), name);
  }

  lemma TwiceReversed<T>(s: seq<T>)
    ensures Reverse(Reverse(s)) == s
  {
  }

  /** One slot further. */
  lemma SlotsNext(buf: seq<byte>, i: nat)
    requires i < SlotCount(buf)
    ensures var at := PieceSlotsOf(buf, i);
            PieceSlotsOf(buf, i + 1) ==
            if !IsPiece(Slot(buf, i)) then [] else if |at| < MAX_PIECES then at + [i] else at
    ensures PieceSlotsOf(buf, 0) == []
  {
  }

  lemma {:induction false} RunIsPieces(buf: seq<byte>, i: nat)
    requires i <= SlotCount(buf)
    ensures forall k :: i - PieceRun(buf, i) <= k < i ==> IsPiece(Slot(buf, k))
    ensures PieceRun(buf, i) < i ==> !IsPiece(Slot(buf, i - PieceRun(buf, i) - 1))
    decreases i
  {
    if 0 < i && IsPiece(Slot(buf, i - 1)) { RunIsPieces(buf, i - 1); }
  }

  lemma SlotsArePieces(buf: seq<byte>, i: nat)
    requires i <= SlotCount(buf)
    ensures PieceSlots(buf, PieceSlotsOf(buf, i))
  {
    RunIsPieces(buf, i);
    hide PieceRun;
  }

  /** One turn of the scan. */
  lemma RenameTurn(buf: seq<byte>, i: nat, at: seq<nat>, name: seq<byte>)
    requires PieceSlots(buf, at) && i < SlotCount(buf) && First(buf, i) != 0x00
    ensures var e := Slot(buf, i);
            IsPiece(e) ==>
              var at' := if |at| < MAX_PIECES then at + [i] else at;
              PieceSlots(buf, at') && RenameScan(buf, i, at, name) == RenameScan(buf, i + 1, at', name)
    ensures var e := Slot(buf, i);
            !IsPiece(e) ==>
              PieceSlots(buf, []) &&
              RenameScan(buf, i, at, name) ==
              if IsValidSfn(e) && OldNameMatches(buf, at, e, name) then Some((i, at))
              else RenameScan(buf, i + 1, [], name)
  {
    hide OldNameMatches, IsVolumeLabel;
  }

  lemma RenameEnd(buf: seq<byte>, at: seq<nat>, name: seq<byte>)
    requires PieceSlots(buf, at)
    ensures RenameScan(buf, End(buf), at, name) == None
  {
  }

  lemma CalledIff(buf: seq<byte>, i: nat, name: seq<byte>)
    ensures End(buf) <= i ==> !Called(buf, i, name)
    ensures i < End(buf) ==>
              var e, ps := Slot(buf, i), EntriesAt(buf, PieceSlotsOf(buf, i));
              Called(buf, i, name) <==>
              !IsPiece(e) && IsValidSfn(e) && (LongNamed(ps, e, Forward(ps), name) || ShortName(e) == To83(name))
  {
    hide LongNamed, Forward, To83, EntriesAt, PieceSlotsOf;
  }

  /** What the scan of a cluster from slot `i` comes to. */
  ghost predicate Picks(buf: seq<byte>, i: nat, name: seq<byte>, r: Option<(nat, seq<nat>)>) {
    match r
    case Some((k, at)) =>
      && i <= k <= SlotCount(buf) && Called(buf, k, name) && at == PieceSlotsOf(buf, k)
      && forall m: nat :: i <= m < k ==> !Called(buf, m, name)
    case None => forall m: nat :: i <= m ==> !Called(buf, m, name)
  }

  lemma PicksHere(buf: seq<byte>, i: nat, name: seq<byte>, r: Option<(nat, seq<nat>)>)
    requires i <= SlotCount(buf)
    requires if Called(buf, i, name) then r == Some((i, PieceSlotsOf(buf, i))) else Picks(buf, i + 1, name, r)
    ensures Picks(buf, i, name, r)
  {
    hide Called, PieceSlotsOf;
  }

  lemma PicksNothing(buf: seq<byte>, name: seq<byte>)
    ensures Picks(buf, End(buf), name, None)
  {
    forall m: nat | End(buf) <= m ensures !Called(buf, m, name) { CalledIff(buf, m, name); }
    hide Called, End;
  }

  lemma {:induction false} RenameScanIs(buf: seq<byte>, i: nat, name: seq<byte>)
    requires i <= End(buf) && PieceSlots(buf, PieceSlotsOf(buf, i))
    ensures Picks(buf, i, name, RenameScan(buf, i, PieceSlotsOf(buf, i), name))
    decreases End(buf) - i
  {
    hide *;
    var at := PieceSlotsOf(buf, i);
    if i < End(buf) {
      EndIs(buf, i);
      RenameTurn(buf, i, at, name);
      SlotsArePieces(buf, i + 1);
      SlotsNext(buf, i);
      InRange(buf, at);
      OldNameIff(buf, at, Slot(buf, i), name);
      CalledIff(buf, i, name);
      RenameScanIs(buf, i + 1, name);
      PicksHere(buf, i, name, RenameScan(buf, i, at, name));
    } else {
      RenameEnd(buf, at, name);
      PicksNothing(buf, name);
    }
  }

  lemma InRange(buf: seq<byte>, at: seq<nat>)
    requires PieceSlots(buf, at)
    ensures forall k :: 0 <= k < |at| ==> at[k] < SlotCount(buf)
  {
  }

  /** What the search for the file to rename comes to, from cluster `j` on: the first one called so, with the slots
      of the pieces in front of it. */
  ghost predicate Picked(bufs: Clusters, j: nat, name: seq<byte>, r: Option<(nat, nat, seq<nat>)>) {
    match r
    case Some((k, i, at)) =>
      && j <= k < |bufs| && i <= SlotCount(bufs[k])
      && Called(bufs[k], i, name) && at == PieceSlotsOf(bufs[k], i)
      && (forall m: nat, l: nat :: j <= m < |bufs| && Before(m, l, k, i) ==> !Called(bufs[m], l, name))
    case None => forall m: nat, l: nat :: j <= m < |bufs| ==> !Called(bufs[m], l, name)
  }

  lemma PickedHere(bufs: Clusters, j: nat, name: seq<byte>, s: Option<(nat, seq<nat>)>, r: Option<(nat, nat, seq<nat>)>)
    requires j < |bufs| && Picks(bufs[j], 0, name, s)
    requires if s.Some? then r == Some((j, s.value.0, s.value.1)) else Picked(bufs, j + 1, name, r)
    ensures Picked(bufs, j, name, r)
  {
    hide Called, PieceSlotsOf;
  }

  lemma PickedNone(bufs: Clusters, name: seq<byte>)
    ensures Picked(bufs, |bufs|, name, None)
  {
  }

  lemma PickTurn(bufs: Clusters, j: nat, name: seq<byte>)
    ensures FindForRename(bufs, |bufs|, name) == None
    ensures j < |bufs| ==>
              && PieceSlotsOf(bufs[j], 0) == [] && 0 <= End(bufs[j]) && PieceSlots(bufs[j], [])
              && var s := RenameScan(bufs[j], 0, [], name);
                 FindForRename(bufs, j, name) ==
                 if s.Some? then Some((j, s.value.0, s.value.1)) else FindForRename(bufs, j + 1, name)
  {
    hide RenameScan, End;
  }

  lemma {:induction false} RenamePicks(bufs: Clusters, j: nat, name: seq<byte>)
    requires j <= |bufs|
    ensures Picked(bufs, j, name, FindForRename(bufs, j, name))
    decreases |bufs| - j
  {
    hide *;
    PickTurn(bufs, j, name);
    if j < |bufs| {
      RenameScanIs(bufs[j], 0, name);
      RenamePicks(bufs, j + 1, name);
      PickedHere(bufs, j, name, RenameScan(bufs[j], 0, [], name), FindForRename(bufs, j, name));
    } else {
      PickedNone(bufs, name);
    }
  }

  lemma {:induction false} UpdateSlotsAt(buf: seq<byte>, at: seq<nat>, es: seq<Entry>, m: nat)
    requires |at| == |es| && (forall k :: 0 <= k < |at| ==> at[k] < SlotCount(buf)) && Distinct(at) && m < |at|
    ensures Slot(UpdateSlots(buf, at, es), at[m]) == es[m]
    decreases |at|
  {
    var b := SetSlot(buf, at[0], es[0]);
    if m == 0 {
      assert at[0] !in at[1..];
      UpdateSlotsEffect(b, at[1..], es[1..], at[0]);
      SetSlotEffect(buf, at[0], es[0], at[0]);
    } else {
      UpdateSlotsAt(b, at[1..], es[1..], m - 1);
    }
  }

  /** What a rename of the file in slot `i` does to the cluster: the entry has the new short name and is otherwise
      the old one; the pieces in front of it are those of the new name if there are as many, and else they are
      marked deleted; nothing else changes. */
  ghost predicate RenamedTo(buf: seq<byte>, b: seq<byte>, i: nat, name: seq<byte>)
    requires i < SlotCount(buf) && |name| <= 255
  {
    var at := PieceSlotsOf(buf, i);
    && |b| == |buf| && Slot(b, i) == To83(name) + Slot(buf, i)[11..]
    && (forall m :: 0 <= m < |at| ==>
          Slot(b, at[m]) == if |at| == PieceCount(name) then Pieces(name, Checksum(To83(name)))[m]
                            else Slot(buf, at[m])[0 := 0xE5])
    && (forall k :: 0 <= k < SlotCount(buf) && k != i && k !in at ==> Slot(b, k) == Slot(buf, k))
  }

  lemma RenamedExactly(buf: seq<byte>, i: nat, name: seq<byte>)
    requires i < SlotCount(buf) && IsValidSfn(Slot(buf, i)) && |name| <= 255
    requires PieceSlots(buf, PieceSlotsOf(buf, i))
    ensures RenamedTo(buf, RenameIn(buf, i, PieceSlotsOf(buf, i), name), i, name)
  {
    var at := PieceSlotsOf(buf, i);
    var es := NewPieces(buf, at, name);
    var b := UpdateSlots(buf, at, es);
    var e := WithName(Slot(b, i), To83(name));
    assert i !in at;
    forall k | 0 <= k < SlotCount(buf)
      ensures Slot(SetSlot(b, i, e), k) == if k == i then e else Slot(b, k)
      ensures k !in at ==> Slot(b, k) == Slot(buf, k)
    {
      SetSlotEffect(b, i, e, k);
      UpdateSlotsEffect(buf, at, es, k);
    }
    forall m | 0 <= m < |at| ensures Slot(b, at[m]) == es[m] { UpdateSlotsAt(buf, at, es, m); }
    hide UpdateSlots, SetSlot, Slot, To83, Pieces;
  }

  /** How a rename ends: `Exists` if and only if something is named like the new name, else `NotFound` if and only
      if no file is called like the old one; and then nothing changes. */
  lemma RenameEndsIff(bufs: Clusters, oldName: seq<byte>, newName: seq<byte>)
    requires |newName| <= 255
    ensures var (status, bufs') := Rename(bufs, oldName, newName);
            && (status == Exists <==> exists j: nat, i: nat :: Named(bufs, j, i, newName))
            && (status == NotFound <==>
                  (forall j: nat, i: nat :: !Named(bufs, j, i, newName)) &&
                  (forall j: nat, i: nat :: j < |bufs| ==> !Called(bufs[j], i, oldName)))
            && (status == Exists || status == NotFound || status == Done)
            && (status != Done ==> bufs' == bufs)
  {
    FindNoneIff(bufs, newName);
    RenamePicks(bufs, 0, oldName);
    hide FindAny, FindForRename, Named, Called, RenameIn;
  }

  /** A rename that is done renames the first file called like the old name, and changes no other cluster. */
  lemma RenamesFirst(bufs: Clusters, oldName: seq<byte>, newName: seq<byte>) returns (j: nat, i: nat)
    requires |newName| <= 255 && Rename(bufs, oldName, newName).0 == Done
    ensures j < |bufs| && i < SlotCount(bufs[j]) && Called(bufs[j], i, oldName)
    ensures forall k: nat, m: nat :: k < |bufs| && Before(k, m, j, i) ==> !Called(bufs[k], m, oldName)
    ensures var bufs' := Rename(bufs, oldName, newName).1;
            |bufs'| == |bufs| && bufs' == bufs[j := bufs'[j]] && RenamedTo(bufs[j], bufs'[j], i, newName)
  {
    RenamePicks(bufs, 0, oldName);
    var r := FindForRename(bufs, 0, oldName).value;
    j, i := r.0, r.1;
    hide FindAny, FindForRename, Called, RenameIn, RenamedTo;
    RenamedExactly(bufs[j], i, newName);
  }

  lemma {:induction false} RunUnique(buf: seq<byte>, i: nat, n: nat)
    requires n <= i <= SlotCount(buf) && forall k :: i - n <= k < i ==> IsPiece(Slot(buf, k))
    requires n < i ==> !IsPiece(Slot(buf, i - n - 1))
    ensures PieceRun(buf, i) == n
    decreases i
  {
    if n > 0 {
      assert IsPiece(Slot(buf, i - 1));
      RunUnique(buf, i - 1, n - 1);
    }
  }

  lemma PiecesText(name: seq<byte>, c: byte)
    requires Printable(name) && |name| <= 255
    ensures Cut(Forward(Pieces(name, c)), NAME_BUFFER - 1) == name
  {
    hide Rebuild, Reverse, Forward, Cut, Pieces, Printable;
    ListOrderRoundTrip(name, c);
    TwiceReversed(Pieces(name, c));
    RebuildIsText(Pieces(name, c), NAME_BUFFER);
  }

  lemma LastPiece(name: seq<byte>, c: byte)
    requires 0 < |name| <= 255
    ensures var ps := Pieces(name, c); ps != [] && ps[|ps| - 1][13] == c
  {
    PieceFields(name, PieceCount(name) - 1, c);
    hide Piece;
  }

  lemma LongNamedIf(ps: seq<Entry>, e: Entry, text: seq<byte>, name: seq<byte>)
    requires ps != [] && ps[|ps| - 1][13] == Checksum(ShortName(e)) && Cut(text, NAME_BUFFER - 1) == name
    requires Printable(name)
    ensures LongNamed(ps, e, text, name)
  {
    hide Checksum, ShortName, Cut;
  }

  lemma PiecesSpell(name: seq<byte>, e: Entry)
    requires Printable(name) && 0 < |name| <= 255 && ShortName(e) == To83(name)
    ensures var ps := Pieces(name, Checksum(To83(name))); LongNamed(ps, e, Forward(ps), name)
  {
    hide LongNamed, Forward, Cut, Pieces, Printable, To83, Checksum, ShortName;
    var c := Checksum(To83(name));
    PiecesText(name, c);
    LastPiece(name, c);
    LongNamedIf(Pieces(name, c), e, Forward(Pieces(name, c)), name);
  }

  /** The slots in front of the renamed file. */
  lemma RenamedPiece(buf: seq<byte>, b: seq<byte>, i: nat, name: seq<byte>, k: nat)
    requires i < SlotCount(buf) && |name| <= 255 && RenamedTo(buf, b, i, name)
    requires PieceRun(buf, i) <= MAX_PIECES && i - PieceRun(buf, i) <= k < i
    ensures var n := PieceRun(buf, i);
            && SlotCount(b) == SlotCount(buf) && (IsPiece(Slot(b, k)) <==> n == PieceCount(name))
            && (n == PieceCount(name) ==> Slot(b, k) == Pieces(name, Checksum(To83(name)))[k - (i - n)])
  {
    var at, m := PieceSlotsOf(buf, i), k - (i - PieceRun(buf, i));
    assert at[m] == k;
    if PieceRun(buf, i) == PieceCount(name) { PieceFields(name, m, Checksum(To83(name))); }
    hide PieceRun, Pieces, To83, Checksum, Slot;
  }

  lemma RenamedFront(buf: seq<byte>, b: seq<byte>, i: nat, name: seq<byte>)
    requires i < SlotCount(buf) && |name| <= 255 && RenamedTo(buf, b, i, name) && PieceRun(buf, i) <= MAX_PIECES
    ensures SlotCount(b) == SlotCount(buf) && ShortName(Slot(b, i)) == To83(name)
    ensures var n := PieceRun(buf, i); n < i ==> !IsPiece(Slot(b, i - n - 1))
  {
    RunIsPieces(buf, i);
    hide PieceRun, Pieces, To83, Checksum;
  }

  lemma EntriesAre(b: seq<byte>, i: nat, n: nat, ps: seq<Entry>)
    requires i <= SlotCount(b) && PieceRun(b, i) == n == |ps| <= MAX_PIECES && n <= i
    requires forall k :: i - n <= k < i ==> Slot(b, k) == ps[k - (i - n)]
    ensures EntriesAt(b, PieceSlotsOf(b, i)) == ps
  {
    hide PieceRun, Slot;
  }

  /** After a rename the pieces in front of the file are those of the new name and spell it, if the old name had as
      many; otherwise none are left. */
  lemma RenamedReads(buf: seq<byte>, b: seq<byte>, i: nat, name: seq<byte>)
    requires i < SlotCount(buf) && Printable(name) && 0 < |name| <= 255 && RenamedTo(buf, b, i, name)
    requires PieceRun(buf, i) <= MAX_PIECES
    ensures i < SlotCount(b)
    ensures PieceRun(buf, i) == PieceCount(name) ==>
              var ps := EntriesAt(b, PieceSlotsOf(b, i));
              ps == Pieces(name, Checksum(To83(name))) && LongNamed(ps, Slot(b, i), Forward(ps), name)
    ensures PieceRun(buf, i) != PieceCount(name) ==> PieceRun(b, i) == 0
  {
    hide *;
    var n := PieceRun(buf, i);
    RenamedFront(buf, b, i, name);
    forall k | i - n <= k < i
      ensures IsPiece(Slot(b, k)) <==> n == PieceCount(name)
      ensures n == PieceCount(name) ==> Slot(b, k) == Pieces(name, Checksum(To83(name)))[k - (i - n)]
    {
      RenamedPiece(buf, b, i, name, k);
    }
    if n == PieceCount(name) {
      RunUnique(b, i, n);
      EntriesAre(b, i, n, Pieces(name, Checksum(To83(name))));
      PiecesSpell(name, Slot(b, i));
    } else {
      RunUnique(b, i, 0);
    }
  }

  // ---------------------------------------------------------------- where a new file is put

  /** `needed` deleted slots in a row from `p` on, in front of the first free one. */
  ghost predicate Gap(buf: seq<byte>, needed: nat, p: nat) {
    p + needed <= End(buf) && forall k :: p <= k < p + needed ==> First(buf, k) == 0xE5
  }

  /** How many deleted slots stand directly in front of slot `i`. */
  function DeletedRun(buf: seq<byte>, i: nat): (r: nat)
    requires i <= SlotCount(buf)
    ensures r <= i && forall k :: i - r <= k < i ==> First(buf, k) == 0xE5
    ensures r < i ==> First(buf, i - r - 1) != 0xE5
  {
    if 0 < i && First(buf, i - 1) == 0xE5 then DeletedRun(buf, i - 1) + 1 else 0
  }

  /** The slots from the first free one on are enough. */
  predicate FreeTail(buf: seq<byte>, needed: nat) {
    End(buf) < SlotCount(buf) && End(buf) + needed <= SlotCount(buf)
  }

  ghost predicate HasPlace(buf: seq<byte>, needed: nat) {
    FreeTail(buf, needed) || exists p: nat :: Gap(buf, needed, p)
  }

  /** A place for `needed` entries: the first gap; if there is none the free slots at the end, together with the
      deleted ones directly in front of them. */
  ghost predicate IsPlace(buf: seq<byte>, needed: nat, p: int) {
    if exists q: nat :: Gap(buf, needed, q)
    then 0 <= p && Gap(buf, needed, p) && forall q: nat :: q < p ==> !Gap(buf, needed, q)
    else FreeTail(buf, needed) && p == End(buf) - DeletedRun(buf, End(buf))
  }

  lemma SlotTurn(buf: seq<byte>, needed: nat, i: nat, run: nat, start: int)
    ensures i < End(buf) ==>
              && i < SlotCount(buf) && First(buf, i) != 0x00
              && SlotSearch(buf, needed, i, run, start) ==
                 if First(buf, i) != 0xE5 then SlotSearch(buf, needed, i + 1, 0, start)
                 else
                   var start' := if run == 0 then i else start;
                   if run + 1 >= needed then Some(start') else SlotSearch(buf, needed, i + 1, run + 1, start')
    ensures SlotSearch(buf, needed, End(buf), run, start) ==
            if FreeTail(buf, needed) then Some(if run == 0 then End(buf) else start) else None
  {
  }

  /** A gap that ends behind slot `i` begins `needed - 1` slots in front of it. */
  lemma NoGapAt(buf: seq<byte>, needed: nat, i: nat)
    requires 0 < needed && i < End(buf) && (First(buf, i) != 0xE5 || DeletedRun(buf, i) + 1 < needed)
    requires forall q: nat :: q + needed <= i ==> !Gap(buf, needed, q)
    ensures forall q: nat :: q + needed <= i + 1 ==> !Gap(buf, needed, q)
  {
    var at := if First(buf, i) != 0xE5 then i else i - DeletedRun(buf, i) - 1;
    assert 0 <= at ==> First(buf, at) != 0xE5;
  }

  lemma GapIf(buf: seq<byte>, needed: nat, i: nat)
    requires i < End(buf) && First(buf, i) == 0xE5 && DeletedRun(buf, i) + 1 == needed
    ensures Gap(buf, needed, i - DeletedRun(buf, i))
  {
    hide DeletedRun, End;
  }

  lemma FirstGap(buf: seq<byte>, needed: nat, p: nat)
    requires Gap(buf, needed, p) && forall q: nat :: q < p ==> !Gap(buf, needed, q)
    ensures IsPlace(buf, needed, p)
  {
    hide Gap, FreeTail, DeletedRun, End;
  }

  lemma GapFound(buf: seq<byte>, needed: nat, i: nat)
    requires i < End(buf) && First(buf, i) == 0xE5 && DeletedRun(buf, i) + 1 == needed
    requires forall q: nat :: q + needed <= i ==> !Gap(buf, needed, q)
    ensures IsPlace(buf, needed, i - DeletedRun(buf, i))
  {
    hide *;
    GapIf(buf, needed, i);
    FirstGap(buf, needed, i - DeletedRun(buf, i));
  }

  lemma NoGaps(buf: seq<byte>, needed: nat)
    requires forall q: nat :: q + needed <= End(buf) ==> !Gap(buf, needed, q)
    ensures forall q: nat :: !Gap(buf, needed, q)
  {
  }

  lemma {:induction false} SlotSearchFrom(buf: seq<byte>, needed: nat, i: nat, start: int)
    requires 0 < needed && i <= End(buf) && DeletedRun(buf, i) < needed
    requires DeletedRun(buf, i) > 0 ==> start == i - DeletedRun(buf, i)
    requires forall q: nat :: q + needed <= i ==> !Gap(buf, needed, q)
    ensures var r := SlotSearch(buf, needed, i, DeletedRun(buf, i), start);
            (r == None <==> !HasPlace(buf, needed)) && (r.Some? ==> IsPlace(buf, needed, r.value))
    decreases End(buf) - i
  {
    hide *;
    var d := DeletedRun(buf, i);
    SlotTurn(buf, needed, i, d, start);
    if i < End(buf) {
      DeletedNext(buf, i);
      if First(buf, i) == 0xE5 && d + 1 >= needed {
        GapFound(buf, needed, i);
        PlaceIsPlace(buf, needed, i - d);
      } else {
        NoGapAt(buf, needed, i);
        SlotSearchFrom(buf, needed, i + 1, if First(buf, i) == 0xE5 && d == 0 then i else start);
      }
    } else {
      NoGaps(buf, needed);
      TailPlace(buf, needed);
    }
  }

  lemma DeletedNext(buf: seq<byte>, i: nat)
    requires i < SlotCount(buf)
    ensures DeletedRun(buf, i + 1) == if First(buf, i) == 0xE5 then DeletedRun(buf, i) + 1 else 0
  {
  }

  lemma TailPlace(buf: seq<byte>, needed: nat)
    requires forall q: nat :: !Gap(buf, needed, q)
    ensures HasPlace(buf, needed) <==> FreeTail(buf, needed)
    ensures FreeTail(buf, needed) ==> IsPlace(buf, needed, End(buf) - DeletedRun(buf, End(buf)))
  {
    hide Gap, DeletedRun, End;
  }

  lemma PlaceIsPlace(buf: seq<byte>, needed: nat, p: int)
    requires IsPlace(buf, needed, p)
    ensures HasPlace(buf, needed)
  {
  }

  /** The search for slots finds none in a cluster if and only if it has no place, and else finds the place. */
  lemma SlotSearchIff(buf: seq<byte>, needed: nat)
    requires 0 < needed
    ensures var r := SlotSearch(buf, needed, 0, 0, -1);
            (r == None <==> !HasPlace(buf, needed)) && (r.Some? ==> IsPlace(buf, needed, r.value))
  {
    SlotSearchFrom(buf, needed, 0, -1);
  }

  lemma {:induction false} PlaceIff(bufs: Clusters, j: nat, needed: nat)
    requires 0 < needed
    ensures match Place(bufs, j, needed)
            case None => forall k :: j <= k < |bufs| ==> !HasPlace(bufs[k], needed)
            case Some((m, p)) =>
              j <= m < |bufs| && IsPlace(bufs[m], needed, p) && HasPlace(bufs[m], needed) &&
              forall k :: j <= k < m ==> !HasPlace(bufs[k], needed)
    decreases |bufs| - j
  {
    hide SlotSearch, HasPlace, IsPlace;
    if j < |bufs| {
      SlotSearchIff(bufs[j], needed);
      PlaceIff(bufs, j + 1, needed);
    }
  }

  /** How a create ends: `Exists` if and only if something is named like the new file, else `NeedsCluster` if and
      only if no cluster has a place for its entries; and then nothing changes. */
  lemma CreateEndsIff(bufs: Clusters, name: seq<byte>, time: nat, date: nat)
    requires Inv(bufs) && |name| <= 255 && time < TWO_16 && date < TWO_16
    ensures var (status, bufs') := Create(bufs, name, time, date);
            && (status == Exists <==> exists j: nat, i: nat :: Named(bufs, j, i, name))
            && (status == NeedsCluster <==>
                  (forall j: nat, i: nat :: !Named(bufs, j, i, name)) &&
                  (forall j :: 0 <= j < |bufs| ==> !HasPlace(bufs[j], PieceCount(name) + 1)))
            && (status == Exists || status == NeedsCluster || status == Done)
            && (status != Done ==> bufs' == bufs)
  {
    FindNoneIff(bufs, name);
    PlaceIff(bufs, 0, PieceCount(name) + 1);
    hide FindAny, Place, Named, HasPlace, Inv, NewSlots, WriteSlots;
  }

  /** A create that is done writes the entries of the file at the place in the first cluster that has one. */
  lemma CreatesFirst(bufs: Clusters, name: seq<byte>, time: nat, date: nat) returns (j: nat, p: nat)
    requires Inv(bufs) && |name| <= 255 && time < TWO_16 && date < TWO_16 && Create(bufs, name, time, date).0 == Done
    ensures j < |bufs| && IsPlace(bufs[j], PieceCount(name) + 1, p)
    ensures forall k :: 0 <= k < j ==> !HasPlace(bufs[k], PieceCount(name) + 1)
    ensures Created(bufs, Create(bufs, name, time, date).1, NewSlots(name, time, date), j, p)
  {
    PlaceIff(bufs, 0, PieceCount(name) + 1);
    PlaceSafe(bufs, 0, PieceCount(name) + 1);
    var q := Place(bufs, 0, PieceCount(name) + 1).value;
    j, p := q.0, q.1;
    hide FindAny, Place, HasPlace, IsPlace, Inv, NewSlots, WriteSlots;
  }
}
