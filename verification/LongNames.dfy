/** Long file names: the 32-byte pieces that hold 13 characters each, and the name rebuilt from them.
    List, rename and delete hand the pieces to the rebuilder in one order, the search by name in the
    other. */
module LongNames {
  import opened Bytes
  import opened DirEntry

  const CHARS := 13
  const MAX_PIECES := 20
  const NAME_BUFFER := 260
  const PAD := 0xFFFF

  /** Character `j` of the name padded to whole pieces: a terminator right behind the name, then
      padding. */
  function PaddedChar(name: seq<byte>, j: nat): nat {
    if j < |name| then name[j] else if j == |name| then 0 else PAD
  }

  function PieceCount(name: seq<byte>): nat {
    (|name| + CHARS - 1) / CHARS
  }

  /** Byte offset of character `j` in a piece. */
  function CharOffset(j: nat): nat {
    if j < 5 then 1 + 2 * j else if j < 11 then 14 + 2 * (j - 5) else 28 + 2 * (j - 11)
  }

  function CharAt(e: Entry, j: nat): nat
    requires j < CHARS
  {
    ReadLe16(e, CharOffset(j))
  }

  function SetChar(e: Entry, j: nat, ch: nat): Entry
    requires j < CHARS && ch < TWO_16
  {
    WriteLe16(e, CharOffset(j), ch)
  }

  function SetChars(e: Entry, name: seq<byte>, start: nat, k: nat): Entry
    requires k <= CHARS
  {
    if k == 0 then e else SetChar(SetChars(e, name, start, k - 1), k - 1, PaddedChar(name, start + k - 1))
  }

  /** Header of piece `i` of `total`, all characters still padding. */
  function Header(i: nat, total: nat, checksum: byte): Entry
    requires i < total <= MAX_PIECES
  {
    var order := (total - i) + if i == 0 then 0x40 else 0;
    seq(ENTRY, k => if k == 0 then order
                    else if k == 11 then ATTR_LFN
                    else if k == 12 then 0
                    else if k == 13 then checksum
                    else if k == 26 || k == 27 then 0
                    else 0xFF)
  }

  function Piece(name: seq<byte>, i: nat, checksum: byte): Entry
    requires i < PieceCount(name) <= MAX_PIECES
  {
    SetChars(Header(i, PieceCount(name), checksum), name, CHARS * i, CHARS)
  }

  function Pieces(name: seq<byte>, checksum: byte): (r: seq<Entry>)
    requires PieceCount(name) <= MAX_PIECES
    ensures |r| == PieceCount(name)
  {
    seq(PieceCount(name), i requires 0 <= i < PieceCount(name) => Piece(name, i, checksum))
  }

  lemma {:induction false} SetCharsEffect(e: Entry, name: seq<byte>, start: nat, k: nat, j: nat)
    requires k <= CHARS && j < CHARS
    ensures CharAt(SetChars(e, name, start, k), j) == if j < k then PaddedChar(name, start + j) else CharAt(e, j)
  {
    if k != 0 {
      SetCharsEffect(e, name, start, k - 1, j);
      var f, ch := SetChars(e, name, start, k - 1), PaddedChar(name, start + k - 1);
      hide SetChars, PaddedChar;
      SetCharEffect(f, k - 1, ch, j);
    }
  }

  lemma SetCharEffect(e: Entry, i: nat, ch: nat, j: nat)
    requires i < CHARS && j < CHARS && ch < TWO_16
    ensures CharAt(SetChar(e, i, ch), j) == if i == j then ch else CharAt(e, j)
  {
    Le16RoundTrip(e, CharOffset(i), ch);
  }

  lemma {:induction false} SetCharsHeader(e: Entry, name: seq<byte>, start: nat, k: nat)
    requires k <= CHARS
    ensures var f := SetChars(e, name, start, k);
            f[0] == e[0] && f[11] == e[11] && f[12] == e[12] && f[13] == e[13] && f[26] == e[26] && f[27] == e[27]
  {
    if k != 0 {
      SetCharsHeader(e, name, start, k - 1);
    }
  }

  /** Where the thirteen characters of a piece are: five from byte 1, six from byte 14 and two from byte 28, two
      bytes each, clear of its other fields and of one another. */
  lemma CharPlaces(e: Entry, j: nat, ch: nat, k: nat)
    requires j < CHARS && ch < TWO_16 && k < ENTRY
    ensures var at := if j < 5 then 1 + 2 * j else if j < 11 then 4 + 2 * j else 6 + 2 * j;
            SetChar(e, j, ch)[k] == if k == at then ch % 0x100 else if k == at + 1 then ch / 0x100 else e[k]
  {
  }

  /** A piece is recognised as one: it is neither free nor deleted, has the long-name attribute and
      carries the checksum and its number, counted from the end and with the first one marked, and its
      characters are those of its stretch of the name. */
  lemma PieceFields(name: seq<byte>, i: nat, checksum: byte)
    requires i < PieceCount(name) <= MAX_PIECES
    ensures var e := Piece(name, i, checksum);
            && e[0] != 0x00 && e[0] != 0xE5 && Attr(e) == ATTR_LFN && e[13] == checksum
            && e[0] == (PieceCount(name) - i) + (if i == 0 then 0x40 else 0) && e[12] == e[26] == e[27] == 0
            && (forall j :: 0 <= j < CHARS ==> CharAt(e, j) == PaddedChar(name, CHARS * i + j))
  {
    var h := Header(i, PieceCount(name), checksum);
    SetCharsHeader(h, name, CHARS * i, CHARS);
    forall j | 0 <= j < CHARS ensures CharAt(Piece(name, i, checksum), j) == PaddedChar(name, CHARS * i + j) {
      SetCharsEffect(h, name, CHARS * i, CHARS, j);
    }
  }

  /** Builds the pieces of a name, in the order in which they are stored. */
  method MakePieces(name: seq<byte>, checksum: byte) returns (out: seq<Entry>)
    requires PieceCount(name) <= MAX_PIECES
    ensures out == Pieces(name, checksum)
  {
    if |name| == 0 { return []; }
    var total := (|name| + 12) / 13;
    out := [];
    var i := 0;
    while i < total
      invariant 0 <= i <= total == PieceCount(name) && |out| == i
      invariant forall k :: 0 <= k < i ==> out[k] == Piece(name, k, checksum)
    {
      var e := Header(i, total, checksum);
      var j := 0;
      while j < CHARS
        invariant 0 <= j <= CHARS && e == SetChars(Header(i, total, checksum), name, CHARS * i, j)
      {
        e := SetChar(e, j, PaddedChar(name, CHARS * i + j));
        j := j + 1;
      }
      out := out + [e];
      i := i + 1;
    }
  }

  // ---------------------------------------------------------------- rebuilding

  function Chars(e: Entry, from: nat, to: nat): (r: seq<int>)
    requires from <= to <= CHARS
    ensures |r| == to - from
  {
    seq(to - from, k requires 0 <= k < to - from => CharAt(e, from + k))
  }

  /** What one run of characters contributes: it ends at a terminator, skips padding and leaves room
      for the final zero. */
  function CopySegment(chars: seq<int>, room: int): (r: seq<byte>)
    ensures |r| <= |chars|
  {
    if chars == [] || room <= 1 || chars[0] == 0 then []
    else if chars[0] == PAD then CopySegment(chars[1..], room)
    else [chars[0] % 0x100] + CopySegment(chars[1..], room - 1)
  }

  /** What one piece contributes: its three runs of characters in turn. */
  function CopyPiece(e: Entry, room: int): seq<byte> {
    var a := CopySegment(Chars(e, 0, 5), room);
    var b := CopySegment(Chars(e, 5, 11), room - |a|);
    a + b + CopySegment(Chars(e, 11, 13), room - |a| - |b|)
  }

  /** The name rebuilt from the pieces taken in order. */
  function Rebuild(pieces: seq<Entry>, room: int): seq<byte>
    decreases |pieces|
  {
    if pieces == [] then []
    else
      var a := CopyPiece(pieces[0], room);
      a + Rebuild(pieces[1..], room - |a|)
  }

  function Reverse<T>(s: seq<T>): (r: seq<T>)
    ensures |r| == |s|
    ensures forall i :: 0 <= i < |s| ==> r[i] == s[|s| - 1 - i]
  {
    seq(|s|, i requires 0 <= i < |s| => s[|s| - 1 - i])
  }

  /** The copy loop over one run of characters. */
  method CopyChars(chars: seq<int>, room: int) returns (out: seq<byte>)
    ensures out == CopySegment(chars, room)
  {
    out := [];
    var i := 0;
    while i < |chars| && |out| < room - 1
      invariant 0 <= i <= |chars|
      invariant out + CopySegment(chars[i..], room - |out|) == CopySegment(chars, room)
    {
      var ch := chars[i];
      assert chars[i..][1..] == chars[i + 1..];
      i := i + 1;
      if ch == 0 { break; }
      if ch == PAD { continue; }
      out := out + [ch % 0x100];
    }
  }

  /** The three copy calls for one piece. */
  method CopyEntry(e: Entry, room: int) returns (out: seq<byte>)
    ensures out == CopyPiece(e, room)
  {
    out := CopyChars(Chars(e, 0, 5), room);
    var b := CopyChars(Chars(e, 5, 11), room - |out|);
    out := out + b;
    var c := CopyChars(Chars(e, 11, 13), room - |out|);
    out := out + c;
  }

  /** Rebuilds a name from an array of pieces, from its last piece down to its first. */
  method RebuildName(entries: seq<Entry>, room: int) returns (out: seq<byte>)
    ensures out == Rebuild(Reverse(entries), room)
  {
    hide CopyPiece;
    out := [];
    var i := |entries| - 1;
    ghost var order := Reverse(entries);
    assert order[0..] == order;
    while i >= 0
      invariant -1 <= i < |entries|
      invariant out + Rebuild(order[|entries| - 1 - i..], room - |out|) == Rebuild(order, room)
    {
      ghost var k := |entries| - 1 - i;
      assert order[k] == entries[i] && order[k..][1..] == order[k + 1..];
      var a := CopyEntry(entries[i], room - |out|);
      assert (out + a) + Rebuild(order[k + 1..], room - |out| - |a|) ==
             out + (a + Rebuild(order[k + 1..], room - |out| - |a|));
      out := out + a;
      i := i - 1;
    }
  }

  // ---------------------------------------------------------------- round trips

  /** The part of the name between two positions. */
  function Clip(name: seq<byte>, from: nat, to: nat): (r: seq<byte>)
    requires from <= to
    ensures |r| <= to - from
  {
    name[if from <= |name| then from else |name|..if to <= |name| then to else |name|]
  }

  lemma ClipJoin(name: seq<byte>, a: nat, b: nat, c: nat)
    requires a <= b <= c
    ensures Clip(name, a, b) + Clip(name, b, c) == Clip(name, a, c)
  {
  }

  predicate Printable(name: seq<byte>) {
    forall k :: 0 <= k < |name| ==> name[k] != 0
  }

  /** A run of padded characters contributes just the characters of the name in it. */
  lemma {:induction false} SegmentOfName(name: seq<byte>, chars: seq<int>, start: nat, room: int)
    requires Printable(name) && |Clip(name, start, start + |chars|)| < room
    requires forall j :: 0 <= j < |chars| ==> chars[j] == PaddedChar(name, start + j)
    ensures CopySegment(chars, room) == Clip(name, start, start + |chars|)
    decreases |chars|
  {
    if chars != [] {
      var rest := chars[1..];
      assert forall j :: 0 <= j < |rest| ==> rest[j] == PaddedChar(name, start + 1 + j);
      assert chars[0] == PaddedChar(name, start + 0);
      ClipJoin(name, start, start + 1, start + |chars|);
      if start < |name| {
        assert Clip(name, start, start + 1) == [name[start]];
        SegmentOfName(name, rest, start + 1, room - 1);
      } else {
        SegmentOfName(name, rest, start + 1, room);
      }
    }
  }

  lemma CharsOfPiece(name: seq<byte>, i: nat, checksum: byte, from: nat, to: nat)
    requires i < PieceCount(name) <= MAX_PIECES && from <= to <= CHARS
    ensures var chars := Chars(Piece(name, i, checksum), from, to);
            |chars| == to - from && forall j :: 0 <= j < |chars| ==> chars[j] == PaddedChar(name, CHARS * i + from + j)
  {
    PieceFields(name, i, checksum);
    hide Piece, PaddedChar, CharAt;
  }

  lemma CopyPieceIs(e: Entry, room: int, a: seq<byte>, b: seq<byte>, c: seq<byte>)
    requires a == CopySegment(Chars(e, 0, 5), room) && b == CopySegment(Chars(e, 5, 11), room - |a|)
    requires c == CopySegment(Chars(e, 11, 13), room - |a| - |b|)
    ensures CopyPiece(e, room) == a + b + c
  {
    hide CopySegment, Chars;
  }

  /** A piece contributes its stretch of the name. */
  lemma PieceOfName(name: seq<byte>, i: nat, checksum: byte, room: int)
    requires Printable(name) && i < PieceCount(name) <= MAX_PIECES && |Clip(name, CHARS * i, CHARS * i + CHARS)| < room
    ensures CopyPiece(Piece(name, i, checksum), room) == Clip(name, CHARS * i, CHARS * i + CHARS)
  {
    hide Clip, Piece, CopySegment, Chars, CopyPiece, PieceCount, Printable, PaddedChar;
    var e, s := Piece(name, i, checksum), CHARS * i;
    var a, b, c := Clip(name, s, s + 5), Clip(name, s + 5, s + 11), Clip(name, s + 11, s + 13);
    ClipJoin(name, s, s + 5, s + 11);
    ClipJoin(name, s, s + 11, s + 13);
    CharsOfPiece(name, i, checksum, 0, 5);
    CharsOfPiece(name, i, checksum, 5, 11);
    CharsOfPiece(name, i, checksum, 11, 13);
    SegmentOfName(name, Chars(e, 0, 5), s, room);
    SegmentOfName(name, Chars(e, 5, 11), s + 5, room - |a|);
    SegmentOfName(name, Chars(e, 11, 13), s + 11, room - |a| - |b|);
    CopyPieceIs(e, room, a, b, c);
  }

  lemma RebuildFirst(pieces: seq<Entry>, room: int)
    requires pieces != []
    ensures var a := CopyPiece(pieces[0], room);
            Rebuild(pieces, room) == a + Rebuild(pieces[1..], room - |a|)
  {
  }

  lemma PieceIsAt(name: seq<byte>, checksum: byte, i: nat)
    requires i < PieceCount(name) <= MAX_PIECES
    ensures Pieces(name, checksum)[i] == Piece(name, i, checksum)
    ensures CHARS * i < |name|
  {
  }

  lemma ClipRest(name: seq<byte>, s: nat)
    requires s < |name|
    ensures Clip(name, s, s + CHARS) + Clip(name, s + CHARS, |name| + (s + CHARS)) == Clip(name, s, |name| + s)
  {
  }

  lemma {:induction false} ForwardRebuild(name: seq<byte>, checksum: byte, i: nat, room: int)
    requires Printable(name) && i <= PieceCount(name) <= MAX_PIECES
    requires |Clip(name, CHARS * i, |name| + CHARS * i)| < room
    ensures Rebuild(Pieces(name, checksum)[i..], room) == Clip(name, CHARS * i, |name| + CHARS * i)
    decreases PieceCount(name) - i
  {
    var ps, s := Pieces(name, checksum), CHARS * i;
    if i < PieceCount(name) {
      hide *;
      assert ps[i..][1..] == ps[i + 1..] && ps[i..][0] == ps[i];
      PieceIsAt(name, checksum, i);
      ClipRest(name, s);
      PieceOfName(name, i, checksum, room);
      ForwardRebuild(name, checksum, i + 1, room - |Clip(name, s, s + CHARS)|);
      RebuildFirst(ps[i..], room);
    }
  }

  /** The stretches of the pieces `..i` of a name, last one first. */
  function ChunksBack(name: seq<byte>, i: nat): seq<byte> {
    if i == 0 then [] else Clip(name, CHARS * (i - 1), CHARS * i) + ChunksBack(name, i - 1)
  }

  lemma ReverseTail<T>(s: seq<T>, i: nat)
    requires 0 < i <= |s|
    ensures Reverse(s[..i]) == [s[i - 1]] + Reverse(s[..i - 1])
  {
  }

  lemma ChunksBackIs(name: seq<byte>, i: nat)
    requires 0 < i
    ensures ChunksBack(name, i) == Clip(name, 13 * (i - 1), 13 * i) + ChunksBack(name, i - 1)
    ensures ChunksBack(name, 0) == []
  {
  }

  lemma {:induction false} BackwardRebuild(name: seq<byte>, checksum: byte, i: nat, room: int)
    requires Printable(name) && i <= PieceCount(name) <= MAX_PIECES && |Clip(name, 0, CHARS * i)| < room
    ensures Rebuild(Reverse(Pieces(name, checksum)[..i]), room) == ChunksBack(name, i)
    decreases i
  {
    hide Clip, Piece, Pieces, CopyPiece, PieceCount, Printable, Rebuild, Reverse, ChunksBack;
    var ps := Pieces(name, checksum);
    if i == 0 {
      assert ps[..0] == [];
      NothingToRebuild(room);
      ChunksBackIs(name, 1);
    } else {
      var s := CHARS * (i - 1);
      ReverseTail(ps, i);
      ChunksBackIs(name, i);
      PieceIsAt(name, checksum, i - 1);
      ClipJoin(name, 0, s, s + CHARS);
      PieceOfName(name, i - 1, checksum, room);
      BackwardRebuild(name, checksum, i - 1, room - |Clip(name, s, s + CHARS)|);
      RebuildFirst(Reverse(ps[..i]), room);
      assert Reverse(ps[..i])[1..] == Reverse(ps[..i - 1]);
    }
  }

  lemma NothingToRebuild(room: int)
    ensures Rebuild(Reverse([]), room) == []
  {
  }

  /** List, rename and delete reverse the stored pieces before rebuilding, and the rebuilder goes
      through them backwards: every name of up to 255 characters comes back. */
  lemma ListOrderRoundTrip(name: seq<byte>, checksum: byte)
    requires Printable(name) && |name| <= 255
    ensures Rebuild(Reverse(Reverse(Pieces(name, checksum))), NAME_BUFFER) == name
  {
    var ps := Pieces(name, checksum);
    assert Reverse(Reverse(ps)) == ps && ps == ps[0..];
    assert Clip(name, 0, |name|) == name;
    ForwardRebuild(name, checksum, 0, NAME_BUFFER);
  }

  /** The search by name rebuilds the stored pieces last one first. */
  lemma SearchOrderRebuild(name: seq<byte>, checksum: byte)
    requires Printable(name) && |name| <= 255
    ensures Rebuild(Reverse(Pieces(name, checksum)), NAME_BUFFER) == ChunksBack(name, PieceCount(name))
  {
    var ps := Pieces(name, checksum);
    assert ps == ps[..PieceCount(name)];
    BackwardRebuild(name, checksum, PieceCount(name), NAME_BUFFER);
  }

  /** A name of `length` characters that only differs in its first one. */
  function Marked(length: nat): (r: seq<byte>)
    ensures |r| == length
  {
    seq(length, k => if k == 0 then 0x41 else 0x42)
  }

  /** The search order gives every name of a given length back if and only if one piece holds it. */
  lemma SearchOrderRoundTripIff(length: nat, checksum: byte)
    requires 1 <= length <= 255
    ensures (forall name: seq<byte> :: Printable(name) && |name| == length ==>
               Rebuild(Reverse(Pieces(name, checksum)), NAME_BUFFER) == name) <==> length <= CHARS
  {
    if length <= CHARS {
      forall name: seq<byte> | Printable(name) && |name| == length
        ensures Rebuild(Reverse(Pieces(name, checksum)), NAME_BUFFER) == name
      {
        SearchOrderRebuild(name, checksum);
        assert ChunksBack(name, 1) == Clip(name, 0, CHARS) + ChunksBack(name, 0);
        assert Clip(name, 0, CHARS) == name;
      }
    } else {
      var name := Marked(length);
      var k := PieceCount(name);
      SearchOrderRebuild(name, checksum);
      var last := Clip(name, CHARS * (k - 1), CHARS * k);
      assert last[0] == name[CHARS * (k - 1)] == 0x42;
      assert ChunksBack(name, k)[0] == 0x42 != name[0];
      assert Printable(name);
    }
  }
}
