/** Bytes and the little-endian codecs of the FAT32 driver. */
module Bytes {

  type byte = b: int | 0 <= b < 256

  const TWO_16 := 0x1_0000
  const TWO_28 := 0x1000_0000
  const TWO_32 := 0x1_0000_0000

  function ReadLe16(buf: seq<byte>, offset: nat): (v: nat)
    requires offset + 2 <= |buf|
    ensures v < TWO_16
  {
    buf[offset] as int + 0x100 * buf[offset + 1] as int
  }

  function ReadLe32(buf: seq<byte>, offset: nat): (v: nat)
    requires offset + 4 <= |buf|
    ensures v < TWO_32
  {
    buf[offset] as int + 0x100 * buf[offset + 1] as int + 0x1_0000 * buf[offset + 2] as int +
      0x100_0000 * buf[offset + 3] as int
  }

  function WriteLe16(buf: seq<byte>, offset: nat, value: nat): (r: seq<byte>)
    requires offset + 2 <= |buf| && value < TWO_16
    ensures |r| == |buf|
  {
    buf[offset := value % 0x100][offset + 1 := value / 0x100]
  }

  function WriteLe32(buf: seq<byte>, offset: nat, value: nat): (r: seq<byte>)
    requires offset + 4 <= |buf| && value < TWO_32
    ensures |r| == |buf|
  {
    buf[offset := value % 0x100]
       [offset + 1 := value / 0x100 % 0x100]
       [offset + 2 := value / 0x1_0000 % 0x100]
       [offset + 3 := value / 0x100_0000]
  }

  /** What is written is read back. */
  lemma Le32RoundTrip(buf: seq<byte>, offset: nat, value: nat)
    requires offset + 4 <= |buf| && value < TWO_32
    ensures ReadLe32(WriteLe32(buf, offset, value), offset) == value
  {
    var r := WriteLe32(buf, offset, value);
    assert r[offset] == value % 0x100 && r[offset + 1] == value / 0x100 % 0x100;
    assert r[offset + 2] == value / 0x1_0000 % 0x100 && r[offset + 3] == value / 0x100_0000;
    assert value / 0x1_0000 == value / 0x100 / 0x100;
    assert value / 0x100_0000 == value / 0x1_0000 / 0x100;
  }

  lemma Le16RoundTrip(buf: seq<byte>, offset: nat, value: nat)
    requires offset + 2 <= |buf| && value < TWO_16
    ensures ReadLe16(WriteLe16(buf, offset, value), offset) == value
  {
  }

  function Pow256(k: nat): (r: nat)
    ensures 0 < r
  {
    if k == 0 then 1 else 0x100 * Pow256(k - 1)
  }

  /** The bytes written are the digits of the value to base 256, lowest first, and no other byte changes. */
  lemma Le32Digits(buf: seq<byte>, offset: nat, value: nat, k: nat)
    requires offset + 4 <= |buf| && value < TWO_32 && k < |buf|
    ensures WriteLe32(buf, offset, value)[k] ==
            if offset <= k < offset + 4 then value / Pow256(k - offset) % 0x100 else buf[k]
  {
    assert Pow256(0) == 1 && Pow256(1) == 0x100 && Pow256(2) == 0x1_0000 && Pow256(3) == 0x100_0000;
    assert value / 0x100_0000 < 0x100;
  }

  lemma Le16Digits(buf: seq<byte>, offset: nat, value: nat, k: nat)
    requires offset + 2 <= |buf| && value < TWO_16 && k < |buf|
    ensures WriteLe16(buf, offset, value)[k] ==
            if offset <= k < offset + 2 then value / Pow256(k - offset) % 0x100 else buf[k]
  {
    assert Pow256(0) == 1 && Pow256(1) == 0x100;
  }

  /** Bytes that read as the same word are the same. */
  lemma Le32Determines(a: seq<byte>, b: seq<byte>, offset: nat)
    requires offset + 4 <= |a| && offset + 4 <= |b|
    ensures ReadLe32(a, offset) == ReadLe32(b, offset) <==> a[offset..offset + 4] == b[offset..offset + 4]
  {
    var x, y := a[offset..offset + 4], b[offset..offset + 4];
    assert forall k :: 0 <= k < 4 ==> x[k] == a[offset + k] && y[k] == b[offset + k];
    if ReadLe32(a, offset) == ReadLe32(b, offset) {
      assert a[offset] == b[offset] && a[offset + 1] == b[offset + 1];
      assert a[offset + 2] == b[offset + 2] && a[offset + 3] == b[offset + 3];
      assert forall k :: 0 <= k < 4 ==> x[k] == y[k];
    }
  }

  lemma Le16Determines(a: seq<byte>, b: seq<byte>, offset: nat)
    requires offset + 2 <= |a| && offset + 2 <= |b|
    ensures ReadLe16(a, offset) == ReadLe16(b, offset) <==> a[offset..offset + 2] == b[offset..offset + 2]
  {
    var x, y := a[offset..offset + 2], b[offset..offset + 2];
    assert forall k :: 0 <= k < 2 ==> x[k] == a[offset + k] && y[k] == b[offset + k];
    if ReadLe16(a, offset) == ReadLe16(b, offset) { assert forall k :: 0 <= k < 2 ==> x[k] == y[k]; }
  }

  /** Writing one word leaves every disjoint word alone. */
  lemma Le32Disjoint(buf: seq<byte>, offset: nat, value: nat, other: nat)
    requires offset + 4 <= |buf| && other + 4 <= |buf| && value < TWO_32
    requires offset + 4 <= other || other + 4 <= offset
    ensures ReadLe32(WriteLe32(buf, offset, value), other) == ReadLe32(buf, other)
  {
  }
}
