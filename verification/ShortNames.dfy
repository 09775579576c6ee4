/** 8.3 short names and their checksum. */
module ShortNames {
  import opened Bytes

  const DOT := 0x2E
  const SPACE := 0x20
  const DELETED := 0xE5

  /** Index of the last dot, or -1. */
  function LastDot(name: seq<byte>): (d: int)
    ensures -1 <= d < |name|
    ensures d >= 0 ==> name[d] == DOT
    ensures forall k :: d < k < |name| ==> name[k] != DOT
  {
    if name == [] then -1
    else if name[|name| - 1] == DOT then |name| - 1
    else LastDot(name[..|name| - 1])
  }

  function Upper(b: byte): byte {
    if 0x61 <= b <= 0x7A then b - 0x20 else b
  }

  function At(s: seq<byte>, k: int): byte {
    if 0 <= k < |s| then s[k] else SPACE
  }

  /** Byte `k` of the short name: up to eight characters in front of the last dot, up to three behind
      it, blanks elsewhere, all in upper case. */
  function ShortByte(name: seq<byte>, k: nat): byte {
    var d := LastDot(name);
    if d < 0 then Upper(if k < 8 then At(name, k) else SPACE)
    else if k < 8 then Upper(if k < d then At(name, k) else SPACE)
    else Upper(At(name, d + 1 + (k - 8)))
  }

  function To83(name: seq<byte>): (r: seq<byte>)
    ensures |r| == 11
  {
    seq(11, k requires 0 <= k => ShortByte(name, k))
  }

  /** The short name looks free only if the name has zero bytes, deleted exactly if the name starts
      with 0xE5, and like a dot entry exactly if the name starts with a dot and has another. */
  lemma ShortNameStart(name: seq<byte>)
    requires forall k :: 0 <= k < |name| ==> name[k] != 0
    ensures To83(name)[0] != 0
    ensures To83(name)[0] == DELETED <==> |name| > 0 && name[0] == DELETED
    ensures To83(name)[0] == DOT <==> |name| > 0 && name[0] == DOT && DOT in name[1..]
  {
    var d := LastDot(name);
    if |name| > 0 && name[0] == DOT {
      if d > 0 { assert name[1..][d - 1] == DOT; }
      if DOT in name[1..] {
        var k :| 0 <= k < |name| - 1 && name[1..][k] == DOT;
        assert name[k + 1] == DOT;
      }
    }
  }

  /** Checksum over the short name: rotate right and add, in eight bits. */
  function ChecksumFrom(sfn: seq<byte>, sum: byte): byte {
    if sfn == [] then sum else ChecksumFrom(sfn[1..], (sum / 2 + 0x80 * (sum % 2) as int + sfn[0]) % 0x100)
  }

  function Checksum(sfn: seq<byte>): byte {
    ChecksumFrom(sfn, 0)
  }

  // ---------------------------------------------------------------- what a short name keeps of a name

  predicate IsLower(b: byte) {
    0x61 <= b <= 0x7A
  }

  /** Byte `k` of a field of a short name that holds the beginning of `part`: its character in upper case, or a
      blank behind its end. */
  predicate Holds(field: seq<byte>, part: seq<byte>, k: nat)
    requires k < |field|
  {
    if k < |part| then field[k] == (if IsLower(part[k]) then part[k] - 0x20 else part[k]) else field[k] == SPACE
  }

  /** The first eight bytes hold what stands in front of the last dot, the other three what stands behind it; a name
      without a dot has no extension. */
  lemma ShortNameParts(name: seq<byte>, base: seq<byte>, ext: seq<byte>)
    requires name == base + [DOT] + ext || (name == base && ext == [] && DOT !in name)
    requires DOT !in ext
    ensures forall k :: 0 <= k < 8 ==> Holds(To83(name)[..8], base, k)
    ensures forall k :: 0 <= k < 3 ==> Holds(To83(name)[8..], ext, k)
  {
    var d := LastDot(name);
    if name == base + [DOT] + ext {
      assert name[|base|] == DOT;
      assert forall k :: |base| < k < |name| ==> name[k] == ext[k - |base| - 1];
      assert d == |base|;
    }
  }

  /** Short names have no lower-case letters, and names that differ in case only share one. */
  lemma ShortNamesFoldCase(a: seq<byte>, b: seq<byte>)
    ensures forall k :: 0 <= k < 11 ==> !IsLower(To83(a)[k])
    ensures |a| == |b| && (forall k :: 0 <= k < |a| ==> Upper(a[k]) == Upper(b[k])) ==> To83(a) == To83(b)
  {
    if |a| == |b| && (forall k :: 0 <= k < |a| ==> Upper(a[k]) == Upper(b[k])) {
      var d, e := LastDot(a), LastDot(b);
      assert d >= 0 ==> b[d] == DOT;
      assert e >= 0 ==> a[e] == DOT;
      assert d == e;
      assert forall k :: 0 <= k < 11 ==> ShortByte(a, k) == ShortByte(b, k);
    }
  }

  // ---------------------------------------------------------------- what the checksum tells apart

  lemma {:induction false} ChecksumJoin(s: seq<byte>, t: seq<byte>, sum: byte)
    ensures ChecksumFrom(s + t, sum) == ChecksumFrom(t, ChecksumFrom(s, sum))
    decreases |s|
  {
    if s == [] {
      assert s + t == t;
    } else {
      assert (s + t)[1..] == s[1..] + t;
      ChecksumJoin(s[1..], t, (sum / 2 + 0x80 * (sum % 2) as int + s[0]) % 0x100);
    }
  }

  lemma StepInjective(x: byte, y: byte, b: byte, c: byte)
    ensures (x / 2 + 0x80 * (x % 2) + b) % 0x100 == (y / 2 + 0x80 * (y % 2) + b) % 0x100 ==> x == y
    ensures (x / 2 + 0x80 * (x % 2) + b) % 0x100 == (x / 2 + 0x80 * (x % 2) + c) % 0x100 ==> b == c
  {
    var u, v := x / 2 + 0x80 * (x % 2), y / 2 + 0x80 * (y % 2);
    if (u + b) % 0x100 == (v + b) % 0x100 { SameResidue(u, v, b); }
    if (u + b) % 0x100 == (u + c) % 0x100 { SameResidue(b, c, u); }
  }

  lemma SameResidue(u: nat, v: nat, w: nat)
    requires u < 0x100 && v < 0x100 && w < 0x100 && (u + w) % 0x100 == (v + w) % 0x100
    ensures u == v
  {
  }

  lemma {:induction false} ChecksumInjective(s: seq<byte>, x: byte, y: byte)
    requires x != y
    ensures ChecksumFrom(s, x) != ChecksumFrom(s, y)
    decreases |s|
  {
    if s != [] {
      StepInjective(x, y, s[0], s[0]);
      ChecksumInjective(s[1..], (x / 2 + 0x80 * (x % 2) + s[0]) % 0x100, (y / 2 + 0x80 * (y % 2) + s[0]) % 0x100);
    }
  }

  /** Short names that differ in exactly one byte have different checksums. */
  lemma ChecksumDetects(front: seq<byte>, b: byte, c: byte, back: seq<byte>)
    requires b != c
    ensures Checksum(front + [b] + back) != Checksum(front + [c] + back)
  {
    var sum := ChecksumFrom(front, 0);
    var x, y := (sum / 2 + 0x80 * (sum % 2) + b) % 0x100, (sum / 2 + 0x80 * (sum % 2) + c) % 0x100;
    ChecksumJoin(front + [b], back, 0);
    ChecksumJoin(front + [c], back, 0);
    ChecksumJoin(front, [b], 0);
    ChecksumJoin(front, [c], 0);
    StepInjective(sum, sum, b, c);
    ChecksumInjective(back, x, y);
  }

  lemma AddUndone(u: nat, b: nat)
    requires u < 0x100 && b < 0x100
    ensures ((u + b) % 0x100 - b) % 0x100 == u
  {
  }

  lemma TurnUndone(x: nat)
    requires x < 0x100
    ensures var y := x / 2 + 0x80 * (x % 2); y < 0x100 && (2 * y) % 0x100 + y / 0x80 == x
  {
    assert x == 2 * (x / 2) + x % 2;
  }

  /** Taking the last byte away again and turning the sum one bit to the left gives the checksum without it. */
  lemma ChecksumUndo(front: seq<byte>, b: byte)
    ensures var y := (Checksum(front + [b]) - b) % 0x100; (2 * y) % 0x100 + y / 0x80 == Checksum(front)
  {
    var sum := ChecksumFrom(front, 0);
    ChecksumJoin(front, [b], 0);
    ChecksumOne(b, sum);
    hide ChecksumFrom;
    TurnUndone(sum);
    AddUndone(sum / 2 + 0x80 * (sum % 2), b);
  }

  lemma ChecksumOne(b: byte, sum: byte)
    ensures ChecksumFrom([b], sum) == (sum / 2 + 0x80 * (sum % 2) + b) % 0x100
  {
  }
}
