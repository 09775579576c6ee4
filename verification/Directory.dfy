/** Creating and renaming files in a directory, given as the list of its clusters: the search by name,
    the search for free slots, and what every run of the two operations keeps. */
module Directory {
  import opened Basics
  import opened Bytes
  import opened DirEntry
  import opened LongNames
  import opened ShortNames

  type Clusters = seq<seq<byte>>

  datatype Status = Done | Exists | NotFound | NeedsCluster

  // ---------------------------------------------------------------- slots

  function First(buf: seq<byte>, i: nat): byte
    requires i < SlotCount(buf)
  {
    Slot(buf, i)[0]
  }

  /** A slot that holds something: it is neither free nor deleted. */
  predicate Live(buf: seq<byte>, i: nat)
    requires i < SlotCount(buf)
  {
    First(buf, i) != 0x00 && First(buf, i) != 0xE5
  }

  /** Nothing is live behind the first free slot of a cluster. */
  ghost predicate TailClear(buf: seq<byte>) {
    forall k, i :: 0 <= k < i < SlotCount(buf) && First(buf, k) == 0x00 ==> !Live(buf, i)
  }

  ghost predicate HasFile(bufs: Clusters, j: nat, i: nat) {
    j < |bufs| && i < SlotCount(bufs[j]) && IsValidSfn(Slot(bufs[j], i))
  }

  ghost predicate NamesDistinct(bufs: Clusters) {
    forall j: nat, i: nat, j': nat, i': nat :: HasFile(bufs, j, i) && HasFile(bufs, j', i') && (j != j' || i != i') ==>
      ShortName(Slot(bufs[j], i)) != ShortName(Slot(bufs[j'], i'))
  }

  /** What create and rename keep. */
  ghost predicate Inv(bufs: Clusters) {
    (forall j :: 0 <= j < |bufs| ==> TailClear(bufs[j])) && NamesDistinct(bufs)
  }

  // ---------------------------------------------------------------- search by name

  /** Result of scanning a cluster: the slot found, and the long-name pieces collected last. */
  datatype Scan = Scan(found: Option<nat>, pieces: seq<Entry>)

  function Collect(pieces: seq<Entry>, e: Entry): seq<Entry> {
    if |pieces| < MAX_PIECES then pieces + [e] else pieces
  }

  /** A C string ends at its first zero byte. */
  function CString(s: seq<byte>): seq<byte> {
    if s == [] || s[0] == 0 then [] else [s[0]] + CString(s[1..])
  }

  predicate LongNameMatches(pieces: seq<Entry>, e: Entry, name: seq<byte>) {
    && 0 < |pieces| && pieces[|pieces| - 1][13] == Checksum(ShortName(e))
    && CString(Rebuild(Reverse(pieces), NAME_BUFFER)) == name
  }

  /** The scan of `FAT32_FindEntryAny` over one cluster. */
  function ScanAny(buf: seq<byte>, i: nat, pieces: seq<Entry>, name: seq<byte>): (r: Scan)
    ensures r.found.Some? ==> i <= r.found.value < SlotCount(buf)
    decreases SlotCount(buf) - i
  {
    if SlotCount(buf) <= i then Scan(None, pieces)
    else
      var e := Slot(buf, i);
      if e[0] == 0x00 then Scan(None, pieces)
      else if e[0] == 0xE5 then ScanAny(buf, i + 1, [], name)
      else if Attr(e) == ATTR_LFN then ScanAny(buf, i + 1, Collect(pieces, e), name)
      else if e[0] == 0x2E || IsVolumeLabel(e) then ScanAny(buf, i + 1, [], name)
      else if LongNameMatches(pieces, e, name) || ShortName(e) == To83(name) then Scan(Some(i), [])
      else ScanAny(buf, i + 1, [], name)
  }

  function FindAny(bufs: Clusters, j: nat, pieces: seq<Entry>, name: seq<byte>): Option<Position>
    decreases |bufs| - j
  {
    if |bufs| <= j then None
    else
      var s := ScanAny(bufs[j], 0, pieces, name);
      if s.found.Some? then Some(Position(j, s.found.value)) else FindAny(bufs, j + 1, s.pieces, name)
  }

  /** A scan that finds nothing has passed no file with the short form of the name. */
  lemma {:induction false} ScanMisses(buf: seq<byte>, i: nat, pieces: seq<Entry>, name: seq<byte>, k: nat)
    requires TailClear(buf) && ScanAny(buf, i, pieces, name).found == None
    requires i <= k < SlotCount(buf) && IsValidSfn(Slot(buf, k))
    ensures ShortName(Slot(buf, k)) != To83(name)
    decreases SlotCount(buf) - i
  {
    var e := Slot(buf, i);
    if i < k {
      assert First(buf, i) == 0x00 ==> !Live(buf, k);
      ScanMisses(buf, i + 1,
                 if e[0] == 0xE5 then [] else if Attr(e) == ATTR_LFN then Collect(pieces, e) else [], name, k);
    }
  }

  lemma {:induction false} FindMisses(bufs: Clusters, j: nat, pieces: seq<Entry>, name: seq<byte>, m: nat, k: nat)
    requires Inv(bufs) && FindAny(bufs, j, pieces, name) == None && j <= m && HasFile(bufs, m, k)
    ensures ShortName(Slot(bufs[m], k)) != To83(name)
    decreases |bufs| - j
  {
    if j == m {
      ScanMisses(bufs[j], 0, pieces, name, k);
    } else {
      FindMisses(bufs, j + 1, ScanAny(bufs[j], 0, pieces, name).pieces, name, m, k);
    }
  }

  // ---------------------------------------------------------------- search for free slots

  /** The scan of `FAT32_CreateFile` for `needed` consecutive slots: `run` deleted slots end just in
      front of slot `i`, beginning at `start`. */
  function SlotSearch(buf: seq<byte>, needed: nat, i: nat, run: nat, start: int): Option<int>
    decreases SlotCount(buf) - i
  {
    if SlotCount(buf) <= i then None
    else if First(buf, i) == 0x00 then
      if SlotCount(buf) - i >= needed then Some(if run == 0 then i else start) else None
    else if First(buf, i) == 0xE5 then
      var start' := if run == 0 then i else start;
      if run + 1 >= needed then Some(start') else SlotSearch(buf, needed, i + 1, run + 1, start')
    else SlotSearch(buf, needed, i + 1, 0, start)
  }

  /** The slots found fit in the cluster, none of them is live, and a free slot among them is not
      skipped over: everything in front of them is in use or deleted. */
  lemma {:induction false} SlotSearchSafe(buf: seq<byte>, needed: nat, i: nat, run: nat, start: int)
    requires TailClear(buf) && 0 < needed && i <= SlotCount(buf) && run <= i && run < needed
    requires run > 0 ==> start == i - run
    requires forall k :: i - run <= k < i ==> First(buf, k) == 0xE5
    requires forall k :: 0 <= k < i ==> First(buf, k) != 0x00
    requires SlotSearch(buf, needed, i, run, start).Some?
    ensures var p := SlotSearch(buf, needed, i, run, start).value;
            && 0 <= p && p + needed <= SlotCount(buf)
            && (forall k :: p <= k < p + needed ==> !Live(buf, k))
            && (forall k :: 0 <= k < p ==> First(buf, k) != 0x00)
    decreases SlotCount(buf) - i
  {
    if First(buf, i) == 0x00 {
      assert forall k :: i < k < SlotCount(buf) ==> !Live(buf, k);
    } else if First(buf, i) == 0xE5 {
      if run + 1 < needed {
        SlotSearchSafe(buf, needed, i + 1, run + 1, if run == 0 then i else start);
      }
    } else {
      SlotSearchSafe(buf, needed, i + 1, 0, start);
    }
  }

  function Place(bufs: Clusters, j: nat, needed: nat): Option<(nat, int)>
    decreases |bufs| - j
  {
    if |bufs| <= j then None
    else
      var p := SlotSearch(bufs[j], needed, 0, 0, -1);
      if p.Some? then Some((j, p.value)) else Place(bufs, j + 1, needed)
  }

  lemma {:induction false} PlaceSafe(bufs: Clusters, j: nat, needed: nat)
    requires Inv(bufs) && 0 < needed && Place(bufs, j, needed).Some?
    ensures var (m, p) := Place(bufs, j, needed).value;
            && m < |bufs| && 0 <= p && p + needed <= SlotCount(bufs[m])
            && (forall k :: p <= k < p + needed ==> !Live(bufs[m], k))
            && (forall k :: 0 <= k < p ==> First(bufs[m], k) != 0x00)
    decreases |bufs| - j
  {
    var p := SlotSearch(bufs[j], needed, 0, 0, -1);
    if p.Some? {
      SlotSearchSafe(bufs[j], needed, 0, 0, -1);
    } else {
      PlaceSafe(bufs, j + 1, needed);
    }
  }

  // ---------------------------------------------------------------- writing slots

  /** The cluster with the entries `es` written from slot `p` on. */
  function WriteSlots(buf: seq<byte>, p: nat, es: seq<Entry>): (r: seq<byte>)
    requires p + |es| <= SlotCount(buf)
    ensures |r| == |buf|
    decreases |es|
  {
    if es == [] then buf else WriteSlots(SetSlot(buf, p, es[0]), p + 1, es[1..])
  }

  lemma {:induction false} WriteSlotsEffect(buf: seq<byte>, p: nat, es: seq<Entry>, k: nat)
    requires p + |es| <= SlotCount(buf) && k < SlotCount(buf)
    ensures Slot(WriteSlots(buf, p, es), k) == if p <= k < p + |es| then es[k - p] else Slot(buf, k)
    decreases |es|
  {
    if es != [] {
      WriteSlotsEffect(SetSlot(buf, p, es[0]), p + 1, es[1..], k);
      SetSlotEffect(buf, p, es[0], k);
    }
  }

  /** The entry of a new, empty file. */
  function NewEntry(sfn: seq<byte>, time: nat, date: nat): Entry
    requires |sfn| == 11 && time < TWO_16 && date < TWO_16
  {
    var e: Entry := sfn + [ATTR_ARCHIVE] + seq(20, _ => 0);
    WriteLe16(WriteLe16(WriteLe16(WriteLe16(WriteLe16(e, 14, time), 16, date), 18, date), 22, time), 24, date)
  }

  lemma NewEntryFields(sfn: seq<byte>, time: nat, date: nat)
    requires |sfn| == 11 && time < TWO_16 && date < TWO_16
    ensures var e := NewEntry(sfn, time, date);
            && ShortName(e) == sfn && Attr(e) == ATTR_ARCHIVE && FirstCluster(e) == 0 && FileSize(e) == 0
            && ReadLe16(e, 14) == ReadLe16(e, 22) == time
            && ReadLe16(e, 16) == ReadLe16(e, 18) == ReadLe16(e, 24) == date
            && (forall k :: 12 <= k < 14 || 20 <= k < 22 || 26 <= k < ENTRY ==> e[k] == 0)
  {
  }

  /** Everything a new file writes: its long-name pieces and its short entry. */
  function NewSlots(name: seq<byte>, time: nat, date: nat): (es: seq<Entry>)
    requires |name| <= 255 && time < TWO_16 && date < TWO_16
    ensures |es| == PieceCount(name) + 1
  {
    Pieces(name, Checksum(To83(name))) + [NewEntry(To83(name), time, date)]
  }

  lemma NewSlotsFields(name: seq<byte>, time: nat, date: nat, k: nat)
    requires |name| <= 255 && time < TWO_16 && date < TWO_16 && k < |NewSlots(name, time, date)|
    ensures var e := NewSlots(name, time, date)[k];
            if k < PieceCount(name) then e[0] != 0 && e[0] != 0xE5 && Attr(e) == ATTR_LFN
            else ShortName(e) == To83(name) && Attr(e) == ATTR_ARCHIVE
  {
    if k < PieceCount(name) {
      PieceFields(name, k, Checksum(To83(name)));
    } else {
      NewEntryFields(To83(name), time, date);
    }
  }

  /** `FAT32_CreateFile` up to the point where the directory would have to grow. */
  ghost function Create(bufs: Clusters, name: seq<byte>, time: nat, date: nat): (r: (Status, Clusters))
    requires Inv(bufs) && |name| <= 255 && time < TWO_16 && date < TWO_16
    ensures |r.1| == |bufs|
  {
    var es := NewSlots(name, time, date);
    if FindAny(bufs, 0, [], name).Some? then (Exists, bufs)
    else if Place(bufs, 0, |es|) == None then (NeedsCluster, bufs)
    else
      PlaceSafe(bufs, 0, |es|);
      var (j, p) := Place(bufs, 0, |es|).value;
      (Done, bufs[j := WriteSlots(bufs[j], p, es)])
  }

  /** Where a file is created: slots that were not live, with nothing free in front of them. */
  ghost predicate Created(bufs: Clusters, bufs': Clusters, es: seq<Entry>, j: nat, p: nat) {
    && j < |bufs| == |bufs'| && 0 < |es| && p + |es| <= SlotCount(bufs[j])
    && bufs' == bufs[j := WriteSlots(bufs[j], p, es)]
    && (forall k :: p <= k < p + |es| ==> !Live(bufs[j], k))
    && (forall k :: 0 <= k < p ==> First(bufs[j], k) != 0x00)
  }

  lemma CreateIs(bufs: Clusters, name: seq<byte>, time: nat, date: nat) returns (j: nat, p: nat)
    requires Inv(bufs) && |name| <= 255 && time < TWO_16 && date < TWO_16 && Create(bufs, name, time, date).0 == Done
    ensures Created(bufs, Create(bufs, name, time, date).1, NewSlots(name, time, date), j, p)
    ensures FindAny(bufs, 0, [], name) == None
  {
    var es := NewSlots(name, time, date);
    PlaceSafe(bufs, 0, |es|);
    var q := Place(bufs, 0, |es|).value;
    j, p := q.0, q.1;
  }

  /** Slot by slot: the new entries where they were put, everything else as before. */
  lemma CreatedSlot(bufs: Clusters, bufs': Clusters, es: seq<Entry>, j: nat, p: nat, m: nat, k: nat)
    requires Created(bufs, bufs', es, j, p) && m < |bufs|
    ensures |bufs'[m]| == |bufs[m]|
    ensures k < SlotCount(bufs[m]) ==>
              Slot(bufs'[m], k) == if m == j && p <= k < p + |es| then es[k - p] else Slot(bufs[m], k)
  {
    if m == j && k < SlotCount(bufs[m]) { WriteSlotsEffect(bufs[j], p, es, k); }
  }

  /** Creating a file overwrites no live entry. */
  lemma CreateOverwritesNothing(bufs: Clusters, name: seq<byte>, time: nat, date: nat, m: nat, k: nat)
    requires Inv(bufs) && |name| <= 255 && time < TWO_16 && date < TWO_16
    requires m < |bufs| && k < SlotCount(bufs[m]) && Live(bufs[m], k)
    ensures var bufs' := Create(bufs, name, time, date).1;
            k < SlotCount(bufs'[m]) && Slot(bufs'[m], k) == Slot(bufs[m], k)
  {
    if Create(bufs, name, time, date).0 == Done {
      var j, p := CreateIs(bufs, name, time, date);
      hide Create, Live;
      CreatedSlot(bufs, Create(bufs, name, time, date).1, NewSlots(name, time, date), j, p, m, k);
    }
  }

  /** A file of the new directory is the new one or an old one in its old place. */
  lemma CreatedFile(bufs: Clusters, bufs': Clusters, name: seq<byte>, time: nat, date: nat, j: nat, p: nat, m: nat,
                    k: nat)
    requires |name| <= 255 && time < TWO_16 && date < TWO_16
    requires Created(bufs, bufs', NewSlots(name, time, date), j, p) && HasFile(bufs', m, k)
    ensures if m == j && k == p + PieceCount(name) then ShortName(Slot(bufs'[m], k)) == To83(name)
            else HasFile(bufs, m, k) && Slot(bufs[m], k) == Slot(bufs'[m], k)
  {
    var es := NewSlots(name, time, date);
    CreatedSlot(bufs, bufs', es, j, p, m, k);
    if m == j && p <= k < p + |es| { NewSlotsFields(name, time, date, k - p); }
  }

  lemma CreatedTail(bufs: Clusters, bufs': Clusters, name: seq<byte>, time: nat, date: nat, j: nat, p: nat, m: nat)
    requires |name| <= 255 && time < TWO_16 && date < TWO_16 && Printable(name)
    requires Created(bufs, bufs', NewSlots(name, time, date), j, p) && m < |bufs| && TailClear(bufs[m])
    ensures TailClear(bufs'[m])
  {
    var es := NewSlots(name, time, date);
    hide NewSlots, Printable, WriteSlots, Slot;
    forall k, i | 0 <= k < i < SlotCount(bufs'[m]) && First(bufs'[m], k) == 0x00 ensures !Live(bufs'[m], i) {
      CreatedSlot(bufs, bufs', es, j, p, m, k);
      CreatedSlot(bufs, bufs', es, j, p, m, i);
      if m == j && p <= k < p + |es| { NewSlotInUse(name, time, date, k - p); }
      assert First(bufs[m], k) == 0x00;
      assert !Live(bufs[m], i);
    }
  }

  /** No slot of a new file looks free. */
  lemma NewSlotInUse(name: seq<byte>, time: nat, date: nat, k: nat)
    requires |name| <= 255 && Printable(name) && time < TWO_16 && date < TWO_16 && k < |NewSlots(name, time, date)|
    ensures NewSlots(name, time, date)[k][0] != 0x00
  {
    NamePrintable(name);
    ShortNameStart(name);
    NewSlotsFields(name, time, date, k);
    var e := NewSlots(name, time, date)[k];
    assert ShortName(e)[0] == e[0];
  }

  /** Creating a file keeps "nothing live behind the first free slot" and the short names distinct. */
  lemma CreateKeeps(bufs: Clusters, name: seq<byte>, time: nat, date: nat)
    requires Inv(bufs) && |name| <= 255 && Printable(name) && time < TWO_16 && date < TWO_16
    ensures Inv(Create(bufs, name, time, date).1)
  {
    var bufs' := Create(bufs, name, time, date).1;
    if Create(bufs, name, time, date).0 == Done {
      var j, p := CreateIs(bufs, name, time, date);
      hide Create, HasFile, TailClear, Created, FindAny;
      forall m | 0 <= m < |bufs'| ensures TailClear(bufs'[m]) {
        CreatedTail(bufs, bufs', name, time, date, j, p, m);
      }
      forall m: nat, i: nat, m': nat, i': nat | HasFile(bufs', m, i) && HasFile(bufs', m', i') && (m != m' || i != i')
        ensures ShortName(Slot(bufs'[m], i)) != ShortName(Slot(bufs'[m'], i'))
      {
        CreatedFile(bufs, bufs', name, time, date, j, p, m, i);
        CreatedFile(bufs, bufs', name, time, date, j, p, m', i');
        if HasFile(bufs, m, i) { FindMisses(bufs, 0, [], name, m, i); }
        if HasFile(bufs, m', i') { FindMisses(bufs, 0, [], name, m', i'); }
      }
    }
  }

  /** The names whose entry looks deleted or like a dot entry. */
  predicate Hidden(name: seq<byte>) {
    |name| > 0 && (name[0] == DELETED || (name[0] == DOT && DOT in name[1..]))
  }

  /** The short entry of a created file, and when it is a valid one. */
  lemma CreatedEntry(bufs: Clusters, bufs': Clusters, name: seq<byte>, time: nat, date: nat, j: nat, p: nat)
    requires |name| <= 255 && Printable(name) && time < TWO_16 && date < TWO_16
    requires Created(bufs, bufs', NewSlots(name, time, date), j, p)
    ensures var k := p + PieceCount(name);
            && j < |bufs'| && k < SlotCount(bufs'[j]) && ShortName(Slot(bufs'[j], k)) == To83(name)
            && (HasFile(bufs', j, k) <==> !Hidden(name))
  {
    hide *;
    var es, k := NewSlots(name, time, date), p + PieceCount(name);
    CreatedCount(bufs, bufs', name, time, date, j, p);
    CreatedSlots(bufs, bufs', name, time, date, j, p);
    CreatedSlot(bufs, bufs', es, j, p, j, k);
    NewSlotsFields(name, time, date, PieceCount(name));
    NamePrintable(name);
    ShortNameStart(name);
    HiddenIs(name);
    EntryValid(Slot(bufs'[j], k));
    HasFileIs(bufs', j, k);
  }

  lemma NamePrintable(name: seq<byte>)
    requires Printable(name)
    ensures forall k :: 0 <= k < |name| ==> name[k] != 0
  {
  }

  lemma HiddenIs(name: seq<byte>)
    ensures Hidden(name) <==> |name| > 0 && (name[0] == DELETED || (name[0] == DOT && DOT in name[1..]))
  {
  }

  lemma EntryValid(e: Entry)
    requires Attr(e) == ATTR_ARCHIVE
    ensures IsValidSfn(e) <==> ShortName(e)[0] != 0 && ShortName(e)[0] != DELETED && ShortName(e)[0] != DOT
  {
    assert e[0] == ShortName(e)[0];
  }

  /** The search only returns valid entries. */
  lemma {:induction false} ScanFindsValid(buf: seq<byte>, i: nat, pieces: seq<Entry>, name: seq<byte>)
    ensures var r := ScanAny(buf, i, pieces, name).found; r.Some? ==> IsValidSfn(Slot(buf, r.value))
    decreases SlotCount(buf) - i
  {
    if i < SlotCount(buf) {
      var e := Slot(buf, i);
      ScanFindsValid(buf, i + 1, if e[0] != 0xE5 && Attr(e) == ATTR_LFN then Collect(pieces, e) else [], name);
    }
  }

  lemma {:induction false} FindsValid(bufs: Clusters, j: nat, pieces: seq<Entry>, name: seq<byte>)
    ensures var r := FindAny(bufs, j, pieces, name); r.Some? ==> HasFile(bufs, r.value.index, r.value.slot)
    decreases |bufs| - j
  {
    if j < |bufs| {
      ScanFindsValid(bufs[j], 0, pieces, name);
      FindsValid(bufs, j + 1, ScanAny(bufs[j], 0, pieces, name).pieces, name);
    }
  }

  /** The pieces collected once slot `i` has been passed. */
  function Passed(buf: seq<byte>, i: nat, pieces: seq<Entry>): seq<Entry>
    requires i < SlotCount(buf)
  {
    var e := Slot(buf, i);
    if e[0] != 0xE5 && Attr(e) == ATTR_LFN then Collect(pieces, e) else []
  }

  /** Past the pieces of a file to its entry, which matches by its short name. */
  lemma {:induction false} ScanPieces(buf: seq<byte>, i: nat, k: nat, pieces: seq<Entry>, name: seq<byte>)
    requires i <= k < SlotCount(buf) && IsValidSfn(Slot(buf, k)) && ShortName(Slot(buf, k)) == To83(name)
    requires forall m :: i <= m < k ==> Live(buf, m) && Attr(Slot(buf, m)) == ATTR_LFN
    ensures ScanAny(buf, i, pieces, name).found == Some(k)
    decreases k - i
  {
    if i < k {
      assert Live(buf, i);
      ScanPieces(buf, i + 1, k, Passed(buf, i, pieces), name);
    }
  }

  /** Up to the new slots a scan goes as before; behind them is the entry it looks for. */
  lemma {:induction false} ScanReaches(buf: seq<byte>, buf': seq<byte>, i: nat, p: nat, k: nat, pieces: seq<Entry>,
                                       name: seq<byte>)
    requires |buf'| == |buf| && i <= p <= k < SlotCount(buf) && ScanAny(buf, i, pieces, name).found == None
    requires forall m :: i <= m < p ==> First(buf, m) != 0x00 && Slot(buf', m) == Slot(buf, m)
    requires IsValidSfn(Slot(buf', k)) && ShortName(Slot(buf', k)) == To83(name)
    requires forall m :: p <= m < k ==> Live(buf', m) && Attr(Slot(buf', m)) == ATTR_LFN
    ensures ScanAny(buf', i, pieces, name).found == Some(k)
    decreases p - i
  {
    if i < p {
      assert Slot(buf', i) == Slot(buf, i) && First(buf, i) != 0x00;
      ScanReaches(buf, buf', i + 1, p, k, Passed(buf, i, pieces), name);
    } else {
      ScanPieces(buf', i, k, pieces, name);
    }
  }

  lemma {:induction false} FindReaches(bufs: Clusters, bufs': Clusters, m: nat, j: nat, k: nat, pieces: seq<Entry>,
                                       name: seq<byte>)
    requires m <= j < |bufs| == |bufs'| && FindAny(bufs, m, pieces, name) == None
    requires forall i :: 0 <= i < j ==> bufs'[i] == bufs[i]
    requires forall ps :: ScanAny(bufs[j], 0, ps, name).found == None ==>
               ScanAny(bufs'[j], 0, ps, name).found == Some(k)
    ensures FindAny(bufs', m, pieces, name) == Some(Position(j, k))
    decreases j - m
  {
    if m < j { FindReaches(bufs, bufs', m + 1, j, k, ScanAny(bufs[m], 0, pieces, name).pieces, name); }
  }

  /** The slots of a created file, as a scan meets them. */
  lemma CreatedSlots(bufs: Clusters, bufs': Clusters, name: seq<byte>, time: nat, date: nat, j: nat, p: nat)
    requires |name| <= 255 && time < TWO_16 && date < TWO_16
    requires Created(bufs, bufs', NewSlots(name, time, date), j, p)
    ensures |bufs'[j]| == |bufs[j]| && forall i :: 0 <= i < j ==> bufs'[i] == bufs[i]
    ensures p + PieceCount(name) < SlotCount(bufs[j]) == SlotCount(bufs'[j])
    ensures forall m :: 0 <= m < p ==> First(bufs[j], m) != 0x00 && Slot(bufs'[j], m) == Slot(bufs[j], m)
    ensures forall m :: p <= m < p + PieceCount(name) ==> Live(bufs'[j], m) && Attr(Slot(bufs'[j], m)) == ATTR_LFN
  {
    var es := NewSlots(name, time, date);
    CreatedSlot(bufs, bufs', es, j, p, j, 0);
    assert |bufs'[j]| == |bufs[j]| && p + PieceCount(name) < SlotCount(bufs[j]);
    hide NewSlots, WriteSlots, Slot, SlotCount, Live;
    forall m | 0 <= m < p ensures Slot(bufs'[j], m) == Slot(bufs[j], m) { CreatedSlot(bufs, bufs', es, j, p, j, m); }
    forall m | p <= m < p + PieceCount(name) ensures Live(bufs'[j], m) && Attr(Slot(bufs'[j], m)) == ATTR_LFN {
      CreatedPiece(bufs, bufs', name, time, date, j, p, m);
    }
  }

  lemma CreatedPiece(bufs: Clusters, bufs': Clusters, name: seq<byte>, time: nat, date: nat, j: nat, p: nat, m: nat)
    requires |name| <= 255 && time < TWO_16 && date < TWO_16 && p <= m < p + PieceCount(name)
    requires Created(bufs, bufs', NewSlots(name, time, date), j, p)
    ensures m < SlotCount(bufs'[j]) && Live(bufs'[j], m) && Attr(Slot(bufs'[j], m)) == ATTR_LFN
  {
    CreatedSlot(bufs, bufs', NewSlots(name, time, date), j, p, j, m);
    NewSlotsFields(name, time, date, m - p);
    hide NewSlots, WriteSlots, Slot;
  }

  /** After a file has been created, the search by name returns its slot if and only if the name does not
      start with 0xE5, which makes the entry look deleted, nor with a dot with another dot behind it,
      which makes it look like a dot entry. */
  lemma CreatedIsFoundIff(bufs: Clusters, name: seq<byte>, time: nat, date: nat) returns (j: nat, p: nat)
    requires Inv(bufs) && |name| <= 255 && Printable(name) && time < TWO_16 && date < TWO_16
    requires Create(bufs, name, time, date).0 == Done
    ensures var bufs' := Create(bufs, name, time, date).1;
            && Created(bufs, bufs', NewSlots(name, time, date), j, p)
            && (FindAny(bufs', 0, [], name) == Some(Position(j, p + PieceCount(name))) <==> !Hidden(name))
  {
    var bufs' := Create(bufs, name, time, date).1;
    j, p := CreateIs(bufs, name, time, date);
    var k := p + PieceCount(name);
    hide *;
    CreatedEntry(bufs, bufs', name, time, date, j, p);
    if Hidden(name) {
      FindsValid(bufs', 0, [], name);
    } else {
      FoundAgain(bufs, bufs', name, time, date, j, p);
    }
  }

  lemma HasFileIs(bufs: Clusters, j: nat, i: nat)
    ensures HasFile(bufs, j, i) <==> j < |bufs| && i < SlotCount(bufs[j]) && IsValidSfn(Slot(bufs[j], i))
  {
  }

  lemma CreatedCount(bufs: Clusters, bufs': Clusters, name: seq<byte>, time: nat, date: nat, j: nat, p: nat)
    requires |name| <= 255 && time < TWO_16 && date < TWO_16
    requires Created(bufs, bufs', NewSlots(name, time, date), j, p)
    ensures j < |bufs| == |bufs'| && |NewSlots(name, time, date)| == PieceCount(name) + 1
  {
  }

  lemma FoundAgain(bufs: Clusters, bufs': Clusters, name: seq<byte>, time: nat, date: nat, j: nat, p: nat)
    requires |name| <= 255 && time < TWO_16 && date < TWO_16 && FindAny(bufs, 0, [], name) == None
    requires Created(bufs, bufs', NewSlots(name, time, date), j, p)
    requires var k := p + PieceCount(name);
             j < |bufs'| && k < SlotCount(bufs'[j]) &&
             HasFile(bufs', j, k) && ShortName(Slot(bufs'[j], k)) == To83(name)
    ensures FindAny(bufs', 0, [], name) == Some(Position(j, p + PieceCount(name)))
  {
    hide *;
    var k := p + PieceCount(name);
    CreatedSlots(bufs, bufs', name, time, date, j, p);
    CreatedCount(bufs, bufs', name, time, date, j, p);
    HasFileIs(bufs', j, k);
    forall ps | ScanAny(bufs[j], 0, ps, name).found == None ensures ScanAny(bufs'[j], 0, ps, name).found == Some(k) {
      ScanReaches(bufs[j], bufs'[j], 0, p, k, ps, name);
    }
    FindReaches(bufs, bufs', 0, j, k, [], name);
  }

  /** The name `..A` created in an empty directory of one 512-byte cluster: the file is there, and the
      search for it finds nothing. */
  lemma HiddenName()
    ensures var name, bufs: Clusters := [DOT, DOT, 0x41], [seq(512, _ => 0)];
            && Inv(bufs) && Printable(name) && Hidden(name)
            && Create(bufs, name, 0, 0).0 == Done && FindAny(Create(bufs, name, 0, 0).1, 0, [], name) == None
  {
    hide *;
    var bufs' := DotNameOnce();
  }

  /** What the first creation of `..A` leaves. */
  lemma DotNameOnce() returns (bufs': Clusters)
    ensures var name, bufs: Clusters := [DOT, DOT, 0x41], [seq(512, _ => 0)];
            && Inv(bufs) && Printable(name) && Hidden(name) && Create(bufs, name, 0, 0) == (Done, bufs')
            && Created(bufs, bufs', NewSlots(name, 0, 0), 0, 0) && FindAny(bufs', 0, [], name) == None
    ensures |bufs'| == 1 && LooksEmpty(bufs'[0])
  {
    var name, buf: seq<byte> := [DOT, DOT, 0x41], seq(512, _ => 0);
    var bufs: Clusters := [buf];
    assert SlotCount(buf) == 16 && forall i :: 0 <= i < 16 ==> First(buf, i) == 0x00;
    assert Inv(bufs);
    assert ScanAny(buf, 0, [], name) == Scan(None, []);
    assert FindAny(bufs, 1, [], name) == None;
    assert PieceCount(name) == 1;
    assert SlotSearch(buf, 2, 0, 0, -1) == Some(0);
    bufs' := Create(bufs, name, 0, 0).1;
    assert Created(bufs, bufs', NewSlots(name, 0, 0), 0, 0);
    assert Printable(name) && Hidden(name);
    hide *;
    ShortNameStart(name);
    HiddenSlots(bufs, bufs', name);
    ScanHidden(bufs'[0], name);
    FindOne(bufs', name);
  }

  /** A piece, an entry that looks like a dot entry, and nothing behind them. */
  ghost predicate LooksEmpty(buf: seq<byte>) {
    && SlotCount(buf) == 16 && Live(buf, 0) && Attr(Slot(buf, 0)) == ATTR_LFN
    && Slot(buf, 1)[0] == 0x2E && Attr(Slot(buf, 1)) != ATTR_LFN && First(buf, 2) == 0x00
  }

  lemma HiddenSlots(bufs: Clusters, bufs': Clusters, name: seq<byte>)
    requires |name| == 3 && Created(bufs, bufs', NewSlots(name, 0, 0), 0, 0) && To83(name)[0] == 0x2E
    requires SlotCount(bufs[0]) == 16 && First(bufs[0], 2) == 0x00
    ensures |bufs'| == |bufs| && 0 < |bufs'| && LooksEmpty(bufs'[0])
  {
    var es := NewSlots(name, 0, 0);
    assert PieceCount(name) == 1;
    hide NewSlots, To83, Created;
    forall k | 0 <= k <= 2
      ensures |bufs'[0]| == |bufs[0]| && Slot(bufs'[0], k) == if k < 2 then es[k] else Slot(bufs[0], k)
    {
      CreatedFirst(bufs, bufs', es);
      CreatedSlot(bufs, bufs', es, 0, 0, 0, k);
    }
    CreatedFirst(bufs, bufs', es);
    NewSlotsFields(name, 0, 0, 0);
    NewSlotsFields(name, 0, 0, 1);
    assert es[1][0] == ShortName(es[1])[0];
  }

  lemma CreatedFirst(bufs: Clusters, bufs': Clusters, es: seq<Entry>)
    requires Created(bufs, bufs', es, 0, 0)
    ensures 0 < |bufs| == |bufs'|
  {
  }

  lemma ScanHidden(buf: seq<byte>, name: seq<byte>)
    requires LooksEmpty(buf)
    ensures ScanAny(buf, 0, [], name).found == None
  {
    assert ScanAny(buf, 2, [], name).found == None;
    var ps := Passed(buf, 0, []);
    assert ScanAny(buf, 1, ps, name) == ScanAny(buf, 2, [], name);
  }

  lemma FindOne(bufs: Clusters, name: seq<byte>)
    requires |bufs| == 1 && ScanAny(bufs[0], 0, [], name).found == None
    ensures FindAny(bufs, 0, [], name) == None
  {
    assert forall ps :: FindAny(bufs, 1, ps, name) == None;
  }

  // ---------------------------------------------------------------- renaming

  /** The pieces in the given slots of a cluster. */
  function PiecesAt(buf: seq<byte>, at: seq<nat>): seq<Entry>
    requires forall k :: 0 <= k < |at| ==> at[k] < SlotCount(buf)
  {
    seq(|at|, k requires 0 <= k < |at| => Slot(buf, at[k]))
  }

  predicate OldNameMatches(buf: seq<byte>, at: seq<nat>, e: Entry, name: seq<byte>)
    requires forall k :: 0 <= k < |at| ==> at[k] < SlotCount(buf)
  {
    || (&& 0 < |at| && Slot(buf, at[|at| - 1])[13] == Checksum(ShortName(e))
        && CString(Rebuild(Reverse(Reverse(PiecesAt(buf, at))), NAME_BUFFER)) == name)
    || ShortName(e) == To83(name)
  }

  /** Slots of live long-name pieces. */
  ghost predicate PieceSlots(buf: seq<byte>, at: seq<nat>) {
    forall k :: 0 <= k < |at| ==> at[k] < SlotCount(buf) && Live(buf, at[k]) && Attr(Slot(buf, at[k])) == ATTR_LFN
  }

  /** The scan of `FAT32_RenameFile` over one cluster: the slot of the file and those of its pieces. */
  ghost function RenameScan(buf: seq<byte>, i: nat, at: seq<nat>, name: seq<byte>): (r: Option<(nat, seq<nat>)>)
    requires PieceSlots(buf, at)
    ensures r.Some? ==> r.value.0 < SlotCount(buf) && IsValidSfn(Slot(buf, r.value.0)) && PieceSlots(buf, r.value.1)
    decreases SlotCount(buf) - i
  {
    if SlotCount(buf) <= i then None
    else
      var e := Slot(buf, i);
      if e[0] == 0x00 then None
      else if e[0] == 0xE5 then RenameScan(buf, i + 1, [], name)
      else if Attr(e) == ATTR_LFN then RenameScan(buf, i + 1, if |at| < MAX_PIECES then at + [i] else at, name)
      else if e[0] == 0x2E || IsVolumeLabel(e) then RenameScan(buf, i + 1, [], name)
      else if OldNameMatches(buf, at, e, name) then Some((i, at))
      else RenameScan(buf, i + 1, [], name)
  }

  ghost function FindForRename(bufs: Clusters, j: nat, name: seq<byte>): (r: Option<(nat, nat, seq<nat>)>)
    ensures r.Some? ==> r.value.0 < |bufs| && r.value.1 < SlotCount(bufs[r.value.0]) &&
                        IsValidSfn(Slot(bufs[r.value.0], r.value.1)) && PieceSlots(bufs[r.value.0], r.value.2)
    decreases |bufs| - j
  {
    if |bufs| <= j then None
    else
      var s := RenameScan(bufs[j], 0, [], name);
      if s.Some? then Some((j, s.value.0, s.value.1)) else FindForRename(bufs, j + 1, name)
  }

  /** Slot `at[k]` replaced by `es[k]`, for each `k` in turn. */
  function UpdateSlots(buf: seq<byte>, at: seq<nat>, es: seq<Entry>): (r: seq<byte>)
    requires |at| == |es| && forall k :: 0 <= k < |at| ==> at[k] < SlotCount(buf)
    ensures |r| == |buf|
    decreases |at|
  {
    if at == [] then buf else UpdateSlots(SetSlot(buf, at[0], es[0]), at[1..], es[1..])
  }

  lemma {:induction false} UpdateSlotsEffect(buf: seq<byte>, at: seq<nat>, es: seq<Entry>, k: nat)
    requires |at| == |es| && (forall m :: 0 <= m < |at| ==> at[m] < SlotCount(buf)) && k < SlotCount(buf)
    ensures var r := UpdateSlots(buf, at, es);
            if k in at then Slot(r, k) in es else Slot(r, k) == Slot(buf, k)
    decreases |at|
  {
    if at != [] {
      var b := SetSlot(buf, at[0], es[0]);
      SetSlotEffect(buf, at[0], es[0], k);
      UpdateSlotsEffect(b, at[1..], es[1..], k);
      assert at == [at[0]] + at[1..] && es == [es[0]] + es[1..];
    }
  }

  /** What the pieces of a renamed file become: the pieces of the new name when there are as many of
      them, deleted slots otherwise. */
  ghost function NewPieces(buf: seq<byte>, at: seq<nat>, name: seq<byte>): (es: seq<Entry>)
    requires PieceSlots(buf, at) && |name| <= 255
    ensures |es| == |at|
  {
    if 0 < |at| == PieceCount(name) then Pieces(name, Checksum(To83(name)))
    else seq(|at|, k requires 0 <= k < |at| => Slot(buf, at[k])[0 := 0xE5])
  }

  function WithName(e: Entry, sfn: seq<byte>): Entry
    requires |sfn| == 11
  {
    sfn + e[11..]
  }

  ghost function RenameIn(buf: seq<byte>, i: nat, at: seq<nat>, name: seq<byte>): (r: seq<byte>)
    requires i < SlotCount(buf) && PieceSlots(buf, at) && |name| <= 255
    ensures |r| == |buf|
  {
    var b := UpdateSlots(buf, at, NewPieces(buf, at, name));
    SetSlot(b, i, WithName(Slot(b, i), To83(name)))
  }

  /** `FAT32_RenameFile`. */
  ghost function Rename(bufs: Clusters, oldName: seq<byte>, newName: seq<byte>): (r: (Status, Clusters))
    requires |newName| <= 255
    ensures |r.1| == |bufs|
  {
    if FindAny(bufs, 0, [], newName).Some? then (Exists, bufs)
    else match FindForRename(bufs, 0, oldName)
      case None => (NotFound, bufs)
      case Some((j, i, at)) => (Done, bufs[j := RenameIn(bufs[j], i, at, newName)])
  }

  lemma NewPieceFields(buf: seq<byte>, at: seq<nat>, name: seq<byte>, e: Entry)
    requires PieceSlots(buf, at) && |name| <= 255 && e in NewPieces(buf, at, name)
    ensures e[0] != 0x00 && (e[0] == 0xE5 || Attr(e) == ATTR_LFN)
  {
    var k :| 0 <= k < |at| && NewPieces(buf, at, name)[k] == e;
    if |at| == PieceCount(name) { PieceFields(name, k, Checksum(To83(name))); }
  }

  /** Slot by slot: the file has its new name, the slots of its pieces hold no file and do not look
      free, everything else is as before. */
  lemma RenamedSlot(buf: seq<byte>, i: nat, at: seq<nat>, name: seq<byte>, k: nat)
    requires i < SlotCount(buf) && IsValidSfn(Slot(buf, i)) && PieceSlots(buf, at) && |name| <= 255
    requires k < SlotCount(buf)
    ensures var b := RenameIn(buf, i, at, name);
            && (k == i ==> ShortName(Slot(b, k)) == To83(name) && Attr(Slot(b, k)) == Attr(Slot(buf, k)))
            && (k != i && k in at ==> Slot(b, k)[0] == 0xE5 || (Slot(b, k)[0] != 0x00 && Attr(Slot(b, k)) == ATTR_LFN))
            && (k != i && k !in at ==> Slot(b, k) == Slot(buf, k))
  {
    var es := NewPieces(buf, at, name);
    var b := UpdateSlots(buf, at, es);
    UpdateSlotsEffect(buf, at, es, k);
    UpdateSlotsEffect(buf, at, es, i);
    SetSlotEffect(b, i, WithName(Slot(b, i), To83(name)), k);
    assert i !in at;
    if k in at { NewPieceFields(buf, at, name, Slot(b, k)); }
  }

  lemma RenamedTail(buf: seq<byte>, i: nat, at: seq<nat>, name: seq<byte>)
    requires i < SlotCount(buf) && IsValidSfn(Slot(buf, i)) && PieceSlots(buf, at) && |name| <= 255 && Printable(name)
    requires TailClear(buf)
    ensures TailClear(RenameIn(buf, i, at, name))
  {
    var b := RenameIn(buf, i, at, name);
    ShortNameStart(name);
    assert Live(buf, i);
    assert forall m :: m in at ==> Live(buf, m);
    hide RenameIn;
    forall k, m | 0 <= k < m < SlotCount(b) && First(b, k) == 0x00 ensures !Live(b, m) {
      RenamedSlot(buf, i, at, name, k);
      RenamedSlot(buf, i, at, name, m);
      assert First(buf, k) == 0x00;
      assert !Live(buf, m);
    }
  }

  /** Renaming keeps "nothing live behind the first free slot" and the short names distinct. */
  lemma RenameKeeps(bufs: Clusters, oldName: seq<byte>, newName: seq<byte>)
    requires Inv(bufs) && |newName| <= 255 && Printable(newName)
    ensures Inv(Rename(bufs, oldName, newName).1)
  {
    var bufs' := Rename(bufs, oldName, newName).1;
    if Rename(bufs, oldName, newName).0 == Done {
      var (j, i, at) := FindForRename(bufs, 0, oldName).value;
      assert bufs' == bufs[j := RenameIn(bufs[j], i, at, newName)] && FindAny(bufs, 0, [], newName) == None;
      RenamedTail(bufs[j], i, at, newName);
      hide Rename, FindForRename, FindAny, RenameIn, TailClear;
      forall m: nat, k: nat | HasFile(bufs', m, k)
        ensures if m == j && k == i then ShortName(Slot(bufs'[m], k)) == To83(newName)
                else HasFile(bufs, m, k) && Slot(bufs[m], k) == Slot(bufs'[m], k) &&
                     ShortName(Slot(bufs[m], k)) != To83(newName)
      {
        if m == j { RenamedSlot(bufs[j], i, at, newName, k); }
        if m != j || k != i { FindMisses(bufs, 0, [], newName, m, k); }
      }
    }
  }

  // ---------------------------------------------------------------- runs

  datatype Op =
    | CreateOp(name: seq<byte>, time: nat, date: nat)
    | RenameOp(from: seq<byte>, to: seq<byte>)

  predicate GoodOp(op: Op) {
    match op
    case CreateOp(name, time, date) => |name| <= 255 && Printable(name) && time < TWO_16 && date < TWO_16
    case RenameOp(_, to) => |to| <= 255 && Printable(to)
  }

  ghost function Apply(bufs: Clusters, op: Op): (r: Clusters)
    requires Inv(bufs) && GoodOp(op)
    ensures Inv(r)
  {
    match op
    case CreateOp(name, time, date) => CreateKeeps(bufs, name, time, date); Create(bufs, name, time, date).1
    case RenameOp(from, to) => RenameKeeps(bufs, from, to); Rename(bufs, from, to).1
  }

  ghost function ApplyAll(bufs: Clusters, ops: seq<Op>): (r: Clusters)
    requires Inv(bufs) && forall k :: 0 <= k < |ops| ==> GoodOp(ops[k])
    ensures Inv(r)
    decreases |ops|
  {
    if ops == [] then bufs else ApplyAll(Apply(bufs, ops[0]), ops[1..])
  }

  /** After every run of create and rename, two files of the directory have different short names, and
      the search by short name along the whole directory finds each where it is. */
  lemma RunKeepsNames(bufs: Clusters, ops: seq<Op>, j: nat, i: nat, j': nat, i': nat)
    requires Inv(bufs) && forall k :: 0 <= k < |ops| ==> GoodOp(ops[k])
    requires HasFile(ApplyAll(bufs, ops), j, i) && HasFile(ApplyAll(bufs, ops), j', i') && (j != j' || i != i')
    ensures var r := ApplyAll(bufs, ops);
            && ShortName(Slot(r[j], i)) != ShortName(Slot(r[j'], i'))
            && Lookup(r, seq(|r|, c => c), 0, ShortName(Slot(r[j], i))) == Some(Position(j, i))
  {
    var r := ApplyAll(bufs, ops);
    hide ApplyAll;
    LooksUpEvery(r, j, i, 0);
  }

  /** The search by short name along the whole directory finds a file where it is. */
  lemma {:induction false} LooksUpEvery(bufs: Clusters, j: nat, i: nat, m: nat)
    requires Inv(bufs) && HasFile(bufs, j, i) && m <= j
    ensures Lookup(bufs, seq(|bufs|, c => c), m, ShortName(Slot(bufs[j], i))) == Some(Position(j, i))
    decreases j - m
  {
    var name := ShortName(Slot(bufs[j], i));
    if m < j {
      var r := FindSlot(bufs[m], name, 0);
      assert r.Some? ==> HasFile(bufs, m, r.value);
      LooksUpEvery(bufs, j, i, m + 1);
    } else {
      FindsEvery(bufs, j, i, 0);
    }
  }

  lemma {:induction false} FindsEvery(bufs: Clusters, j: nat, i: nat, k: nat)
    requires Inv(bufs) && HasFile(bufs, j, i) && k <= i
    ensures FindSlot(bufs[j], ShortName(Slot(bufs[j], i)), k) == Some(i)
    decreases i - k
  {
    if k < i {
      assert First(bufs[j], k) == 0x00 ==> !Live(bufs[j], i);
      assert IsValidSfn(Slot(bufs[j], k)) ==> HasFile(bufs, j, k);
      FindsEvery(bufs, j, i, k + 1);
    }
  }

  // ---------------------------------------------------------------- entries that look like dot entries

  /** A short entry that is there, whether the search by name passes it over or not. */
  ghost predicate HasEntry(bufs: Clusters, j: nat, i: nat) {
    j < |bufs| && i < SlotCount(bufs[j]) && IsEntry(Slot(bufs[j], i))
  }

  /** Neither free nor deleted, nor a long-name piece or a volume label. */
  predicate IsEntry(e: Entry) {
    e[0] != 0x00 && e[0] != 0xE5 && Attr(e) != ATTR_LFN && !IsVolumeLabel(e)
  }

  ghost predicate EntriesDistinct(bufs: Clusters) {
    forall j: nat, i: nat, j': nat, i': nat ::
      HasEntry(bufs, j, i) && HasEntry(bufs, j', i') && (j != j' || i != i') ==>
      ShortName(Slot(bufs[j], i)) != ShortName(Slot(bufs[j'], i'))
  }

  /** Some entry has the short name. */
  ghost predicate Taken(bufs: Clusters, sfn: seq<byte>) {
    exists j: nat, i: nat :: HasEntry(bufs, j, i) && ShortName(Slot(bufs[j], i)) == sfn
  }

  /** The names whose entry looks like a dot entry. */
  predicate DotName(name: seq<byte>) {
    |name| > 0 && name[0] == DOT && DOT in name[1..]
  }

  /** The files are the entries that do not look like a dot entry, so two entries with the same name do. */
  lemma SameNamesAreDotted(bufs: Clusters, j: nat, i: nat, j': nat, i': nat)
    requires Inv(bufs) && HasEntry(bufs, j, i) && HasEntry(bufs, j', i') && (j != j' || i != i')
    requires ShortName(Slot(bufs[j], i)) == ShortName(Slot(bufs[j'], i'))
    ensures ShortName(Slot(bufs[j], i))[0] == DOT
  {
    if ShortName(Slot(bufs[j], i))[0] != DOT { assert HasFile(bufs, j, i) && HasFile(bufs, j', i'); }
  }

  /** Only a name that looks like a dot entry can be taken and not be found. */
  lemma TakenIsDotted(bufs: Clusters, name: seq<byte>)
    requires Inv(bufs) && Printable(name) && FindAny(bufs, 0, [], name) == None && Taken(bufs, To83(name))
    ensures DotName(name)
  {
    var j: nat, i: nat :| HasEntry(bufs, j, i) && ShortName(Slot(bufs[j], i)) == To83(name);
    NamePrintable(name);
    ShortNameStart(name);
    if !DotName(name) {
      assert HasFile(bufs, j, i);
      FindMisses(bufs, 0, [], name, j, i);
    }
  }

  /** The slot holds the same entry, or neither time one. */
  ghost predicate SameEntry(bufs: Clusters, bufs': Clusters, m: nat, i: nat) {
    && (HasEntry(bufs', m, i) <==> HasEntry(bufs, m, i))
    && (HasEntry(bufs, m, i) ==> Slot(bufs'[m], i) == Slot(bufs[m], i))
  }

  /** `bufs'` has the entries of `bufs`, each in its place, except that the slot (`j`, `k`) has a new one named
      `sfn`, or one that looks deleted. */
  ghost predicate Changed(bufs: Clusters, bufs': Clusters, j: nat, k: nat, sfn: seq<byte>) {
    && (forall m: nat, i: nat :: m != j || i != k ==> SameEntry(bufs, bufs', m, i))
    && (HasEntry(bufs', j, k) ==> ShortName(Slot(bufs'[j], k)) == sfn)
    && (|sfn| == 11 && sfn[0] != 0x00 && sfn[0] != DELETED ==> HasEntry(bufs', j, k))
    && (HasEntry(bufs, j, k) ==> ShortName(Slot(bufs[j], k)) != sfn)
  }

  lemma ChangedDistinctIff(bufs: Clusters, bufs': Clusters, j: nat, k: nat, sfn: seq<byte>)
    requires EntriesDistinct(bufs) && Changed(bufs, bufs', j, k, sfn)
    ensures EntriesDistinct(bufs') <==> !Taken(bufs, sfn)
  {
    hide IsEntry, Slot, SlotCount;
    if Taken(bufs, sfn) {
      var m: nat, i: nat :| HasEntry(bufs, m, i) && ShortName(Slot(bufs[m], i)) == sfn;
      EntryStart(bufs, m, i);
      assert SameEntry(bufs, bufs', m, i);
      assert HasEntry(bufs', j, k) && HasEntry(bufs', m, i);
    } else {
      forall m: nat, i: nat | HasEntry(bufs', m, i) && (m != j || i != k)
        ensures HasEntry(bufs, m, i) && Slot(bufs'[m], i) == Slot(bufs[m], i)
      {
        assert SameEntry(bufs, bufs', m, i);
      }
    }
  }

  lemma EntryStart(bufs: Clusters, j: nat, i: nat)
    requires HasEntry(bufs, j, i)
    ensures var sfn := ShortName(Slot(bufs[j], i)); |sfn| == 11 && sfn[0] != 0x00 && sfn[0] != DELETED
  {
  }

  lemma CreatedSame(bufs: Clusters, bufs': Clusters, name: seq<byte>, time: nat, date: nat, j: nat, p: nat, m: nat,
                    i: nat)
    requires |name| <= 255 && time < TWO_16 && date < TWO_16
    requires Created(bufs, bufs', NewSlots(name, time, date), j, p) && (m != j || i != p + PieceCount(name))
    ensures SameEntry(bufs, bufs', m, i)
  {
    var es := NewSlots(name, time, date);
    hide NewSlots;
    if m < |bufs| && i < SlotCount(bufs[m]) {
      CreatedSlot(bufs, bufs', es, j, p, m, i);
      if m == j && p <= i < p + |es| {
        NewSlotsFields(name, time, date, i - p);
        assert !Live(bufs[m], i);
      }
    } else if m < |bufs| {
      CreatedSlot(bufs, bufs', es, j, p, m, 0);
    }
  }

  lemma CreatedChanges(bufs: Clusters, bufs': Clusters, name: seq<byte>, time: nat, date: nat, j: nat, p: nat)
    requires |name| <= 255 && time < TWO_16 && date < TWO_16
    requires Created(bufs, bufs', NewSlots(name, time, date), j, p)
    ensures Changed(bufs, bufs', j, p + PieceCount(name), To83(name))
  {
    hide *;
    var k := p + PieceCount(name);
    CreatedNew(bufs, bufs', name, time, date, j, p);
    forall m: nat, i: nat | m != j || i != k ensures SameEntry(bufs, bufs', m, i) {
      CreatedSame(bufs, bufs', name, time, date, j, p, m, i);
    }
    ChangedIf(bufs, bufs', j, k, To83(name));
  }

  lemma CreatedNew(bufs: Clusters, bufs': Clusters, name: seq<byte>, time: nat, date: nat, j: nat, p: nat)
    requires |name| <= 255 && time < TWO_16 && date < TWO_16
    requires Created(bufs, bufs', NewSlots(name, time, date), j, p)
    ensures var k, sfn := p + PieceCount(name), To83(name);
            && j < |bufs'| && k < SlotCount(bufs'[j]) && !HasEntry(bufs, j, k)
            && ShortName(Slot(bufs'[j], k)) == sfn && |sfn| == 11
            && (sfn[0] != 0x00 && sfn[0] != DELETED ==> HasEntry(bufs', j, k))
  {
    var k := p + PieceCount(name);
    CreatedSlot(bufs, bufs', NewSlots(name, time, date), j, p, j, k);
    NewSlotsFields(name, time, date, PieceCount(name));
    assert !Live(bufs[j], k);
    assert ShortName(Slot(bufs'[j], k))[0] == Slot(bufs'[j], k)[0];
    hide NewSlots, To83, Slot, WriteSlots;
  }

  /** Creating a file keeps the short names of all entries distinct if and only if no entry has the new one;
      and the search, which has found no file of that name, misses only names that look like a dot entry. */
  lemma CreateDistinctIff(bufs: Clusters, name: seq<byte>, time: nat, date: nat)
    requires Inv(bufs) && |name| <= 255 && Printable(name) && time < TWO_16 && date < TWO_16
    requires EntriesDistinct(bufs) && Create(bufs, name, time, date).0 == Done
    ensures EntriesDistinct(Create(bufs, name, time, date).1) <==> !Taken(bufs, To83(name))
    ensures Taken(bufs, To83(name)) ==> DotName(name)
  {
    hide *;
    var j, p := CreateIs(bufs, name, time, date);
    var bufs' := Create(bufs, name, time, date).1;
    CreatedChanges(bufs, bufs', name, time, date, j, p);
    ChangedDistinctIff(bufs, bufs', j, p + PieceCount(name), To83(name));
    if Taken(bufs, To83(name)) { TakenIsDotted(bufs, name); }
  }

  lemma RenamedChanges(bufs: Clusters, bufs': Clusters, j: nat, i: nat, at: seq<nat>, name: seq<byte>)
    requires Inv(bufs) && j < |bufs| && i < SlotCount(bufs[j]) && IsValidSfn(Slot(bufs[j], i))
    requires PieceSlots(bufs[j], at)
    requires |name| <= 255 && Printable(name) && FindAny(bufs, 0, [], name) == None
    requires bufs' == bufs[j := RenameIn(bufs[j], i, at, name)]
    ensures Changed(bufs, bufs', j, i, To83(name))
  {
    hide *;
    HasFileIs(bufs, j, i);
    FindMisses(bufs, 0, [], name, j, i);
    RenamedEntry(bufs, bufs', j, i, at, name);
    forall m: nat, k: nat | m != j || k != i ensures SameEntry(bufs, bufs', m, k) {
      RenamedSame(bufs, bufs', j, i, at, name, m, k);
    }
    ChangedIf(bufs, bufs', j, i, To83(name));
  }

  lemma RenamedEntry(bufs: Clusters, bufs': Clusters, j: nat, i: nat, at: seq<nat>, name: seq<byte>)
    requires j < |bufs| && i < SlotCount(bufs[j]) && IsValidSfn(Slot(bufs[j], i)) && PieceSlots(bufs[j], at)
    requires |name| <= 255 && bufs' == bufs[j := RenameIn(bufs[j], i, at, name)]
    ensures j < |bufs'| && i < SlotCount(bufs'[j]) && HasEntry(bufs, j, i)
    ensures var e, sfn := Slot(bufs'[j], i), To83(name);
            ShortName(e) == sfn && |sfn| == 11 && (sfn[0] != 0x00 && sfn[0] != DELETED ==> HasEntry(bufs', j, i))
  {
    RenamedSlot(bufs[j], i, at, name, i);
    assert ShortName(Slot(bufs'[j], i))[0] == Slot(bufs'[j], i)[0];
    hide RenameIn, To83, Slot;
  }

  lemma RenamedSame(bufs: Clusters, bufs': Clusters, j: nat, i: nat, at: seq<nat>, name: seq<byte>, m: nat, k: nat)
    requires j < |bufs| && i < SlotCount(bufs[j]) && IsValidSfn(Slot(bufs[j], i)) && PieceSlots(bufs[j], at)
    requires |name| <= 255 && bufs' == bufs[j := RenameIn(bufs[j], i, at, name)] && (m != j || k != i)
    ensures SameEntry(bufs, bufs', m, k)
  {
    if m == j && k < SlotCount(bufs[j]) { RenamedSlot(bufs[j], i, at, name, k); }
    hide RenameIn, To83, Slot;
  }

  lemma ChangedIf(bufs: Clusters, bufs': Clusters, j: nat, k: nat, sfn: seq<byte>)
    requires forall m: nat, i: nat :: m != j || i != k ==> SameEntry(bufs, bufs', m, i)
    requires HasEntry(bufs', j, k) ==> ShortName(Slot(bufs'[j], k)) == sfn
    requires |sfn| == 11 && sfn[0] != 0x00 && sfn[0] != DELETED ==> HasEntry(bufs', j, k)
    requires HasEntry(bufs, j, k) ==> ShortName(Slot(bufs[j], k)) != sfn
    ensures Changed(bufs, bufs', j, k, sfn)
  {
    hide SameEntry;
  }

  /** The same for renaming. */
  lemma RenameDistinctIff(bufs: Clusters, oldName: seq<byte>, newName: seq<byte>)
    requires Inv(bufs) && |newName| <= 255 && Printable(newName)
    requires EntriesDistinct(bufs) && Rename(bufs, oldName, newName).0 == Done
    ensures EntriesDistinct(Rename(bufs, oldName, newName).1) <==> !Taken(bufs, To83(newName))
    ensures Taken(bufs, To83(newName)) ==> DotName(newName)
  {
    var bufs' := Rename(bufs, oldName, newName).1;
    var (j, i, at) := FindForRename(bufs, 0, oldName).value;
    assert bufs' == bufs[j := RenameIn(bufs[j], i, at, newName)] && FindAny(bufs, 0, [], newName) == None;
    hide *;
    RenamedChanges(bufs, bufs', j, i, at, newName);
    ChangedDistinctIff(bufs, bufs', j, i, To83(newName));
    if Taken(bufs, To83(newName)) { TakenIsDotted(bufs, newName); }
  }

  /** The name an operation gives a file. */
  function NewName(op: Op): seq<byte> {
    match op
    case CreateOp(name, _, _) => name
    case RenameOp(_, to) => to
  }

  lemma ApplyKeepsEntries(bufs: Clusters, op: Op)
    requires Inv(bufs) && GoodOp(op) && EntriesDistinct(bufs) && !DotName(NewName(op))
    ensures EntriesDistinct(Apply(bufs, op))
  {
    hide Create, Rename, EntriesDistinct, Inv, DotName, Taken, To83;
    match op
    case CreateOp(name, time, date) =>
      if Create(bufs, name, time, date).0 == Done { CreateDistinctIff(bufs, name, time, date); }
      CreateFails(bufs, name, time, date);
    case RenameOp(from, to) =>
      if Rename(bufs, from, to).0 == Done { RenameDistinctIff(bufs, from, to); }
      RenameFails(bufs, from, to);
  }

  lemma CreateFails(bufs: Clusters, name: seq<byte>, time: nat, date: nat)
    requires Inv(bufs) && |name| <= 255 && time < TWO_16 && date < TWO_16
    ensures Create(bufs, name, time, date).0 != Done ==> Create(bufs, name, time, date).1 == bufs
  {
  }

  lemma RenameFails(bufs: Clusters, oldName: seq<byte>, newName: seq<byte>)
    requires |newName| <= 255
    ensures Rename(bufs, oldName, newName).0 != Done ==> Rename(bufs, oldName, newName).1 == bufs
  {
  }

  /** Every run of creates and renames that gives no file a name looking like a dot entry keeps the short
      names of all entries distinct. */
  lemma {:induction false} RunKeepsEntries(bufs: Clusters, ops: seq<Op>)
    requires Inv(bufs) && EntriesDistinct(bufs)
    requires forall k :: 0 <= k < |ops| ==> GoodOp(ops[k]) && !DotName(NewName(ops[k]))
    ensures EntriesDistinct(ApplyAll(bufs, ops))
    decreases |ops|
  {
    hide Inv, EntriesDistinct, Apply, GoodOp, DotName, NewName;
    if ops != [] {
      ApplyKeepsEntries(bufs, ops[0]);
      RunKeepsEntries(Apply(bufs, ops[0]), ops[1..]);
    }
  }

  /** The name `..A` created twice in an empty directory: both times a file is made, and the two entries have
      the same short name. */
  lemma DotNameTwice() returns (bufs': Clusters, bufs'': Clusters)
    ensures var name, bufs: Clusters := [DOT, DOT, 0x41], [seq(512, _ => 0)];
            && Inv(bufs) && Create(bufs, name, 0, 0) == (Done, bufs')
            && Inv(bufs') && Create(bufs', name, 0, 0) == (Done, bufs'')
    ensures HasEntry(bufs'', 0, 1) && HasEntry(bufs'', 0, 3)
    ensures ShortName(Slot(bufs''[0], 1)) == ShortName(Slot(bufs''[0], 3)) && !EntriesDistinct(bufs'')
  {
    hide Create, Inv, Created, FindAny, NewSlots, To83, Changed, EntriesDistinct, HasEntry, LooksEmpty, Printable,
         Hidden;
    var name, bufs: Clusters := [DOT, DOT, 0x41], [seq(512, _ => 0)];
    bufs' := DotNameOnce();
    CreateKeeps(bufs, name, 0, 0);
    SecondSlots(bufs', name);
    bufs'' := Create(bufs', name, 0, 0).1;
    OnePiece(name);
    CreatedChanges(bufs, bufs', name, 0, 0, 0, 0);
    CreatedChanges(bufs', bufs'', name, 0, 0, 0, 2);
    NamePrintable(name);
    ShortNameStart(name);
    ChangedTwice(bufs, bufs', bufs'', To83(name));
  }

  lemma OnePiece(name: seq<byte>)
    requires |name| == 3
    ensures PieceCount(name) == 1
  {
  }

  lemma SecondSlots(bufs: Clusters, name: seq<byte>)
    requires Inv(bufs) && |bufs| == 1 && LooksEmpty(bufs[0]) && |name| == 3 && FindAny(bufs, 0, [], name) == None
    ensures var r := Create(bufs, name, 0, 0); r.0 == Done && Created(bufs, r.1, NewSlots(name, 0, 0), 0, 2)
  {
    var buf := bufs[0];
    assert SlotSearch(buf, 2, 2, 0, -1) == Some(2);
    assert SlotSearch(buf, 2, 1, 0, -1) == Some(2);
    assert SlotSearch(buf, 2, 0, 0, -1) == Some(2);
    assert Place(bufs, 0, 2) == Some((0, 2));
    OnePiece(name);
    PlaceSafe(bufs, 0, 2);
    hide NewSlots, FindAny, SlotSearch, Inv, LooksEmpty;
  }

  lemma ChangedTwice(bufs: Clusters, bufs': Clusters, bufs'': Clusters, sfn: seq<byte>)
    requires Changed(bufs, bufs', 0, 1, sfn) && Changed(bufs', bufs'', 0, 3, sfn)
    requires |sfn| == 11 && sfn[0] != 0x00 && sfn[0] != DELETED
    ensures HasEntry(bufs'', 0, 1) && HasEntry(bufs'', 0, 3)
    ensures ShortName(Slot(bufs''[0], 1)) == ShortName(Slot(bufs''[0], 3)) && !EntriesDistinct(bufs'')
  {
    hide IsEntry, Slot, SlotCount;
    assert SameEntry(bufs', bufs'', 0, 1);
    assert HasEntry(bufs'', 0, 1) && HasEntry(bufs'', 0, 3);
  }
}
