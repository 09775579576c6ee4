/** A disk is a sequence of 512-byte sectors indexed by LBA; transfers never fail. */
module BlockDevice {
  import opened Bytes

  const SECTOR := 512

  type Disk = seq<seq<byte>>

  ghost predicate IsDisk(d: Disk) {
    forall lba :: 0 <= lba < |d| ==> |d[lba]| == SECTOR
  }

  /** The bytes of `count` sectors starting at `lba`. */
  function ReadRun(d: Disk, lba: nat, count: nat): seq<byte>
    requires lba + count <= |d|
    decreases count
  {
    if count == 0 then [] else d[lba] + ReadRun(d, lba + 1, count - 1)
  }

  /** The disk after `count` sectors starting at `lba` have been overwritten with `buf`. */
  function WriteRun(d: Disk, lba: nat, count: nat, buf: seq<byte>): (r: Disk)
    requires lba + count <= |d| && |buf| == count * SECTOR
    ensures |r| == |d|
    decreases count
  {
    if count == 0 then d else WriteRun(d[lba := buf[..SECTOR]], lba + 1, count - 1, buf[SECTOR..])
  }

  lemma {:induction false} ReadRunLength(d: Disk, lba: nat, count: nat)
    requires IsDisk(d) && lba + count <= |d|
    ensures |ReadRun(d, lba, count)| == count * SECTOR
    decreases count
  {
    if count != 0 {
      ReadRunLength(d, lba + 1, count - 1);
    }
  }

  /** A run depends on its own sectors only. */
  lemma {:induction false} ReadRunFrame(d: Disk, e: Disk, lba: nat, count: nat)
    requires |d| == |e| && lba + count <= |d|
    requires forall i :: lba <= i < lba + count ==> d[i] == e[i]
    ensures ReadRun(d, lba, count) == ReadRun(e, lba, count)
    decreases count
  {
    if count != 0 {
      ReadRunFrame(d, e, lba + 1, count - 1);
    }
  }

  /** A run is its sectors in order. */
  lemma {:induction false} ReadRunSector(d: Disk, lba: nat, count: nat, k: nat)
    requires IsDisk(d) && lba + count <= |d| && k < count
    ensures |ReadRun(d, lba, count)| == count * SECTOR
    ensures ReadRun(d, lba, count)[k * SECTOR..k * SECTOR + SECTOR] == d[lba + k]
    decreases count
  {
    ReadRunLength(d, lba, count);
    if k != 0 {
      ReadRunSector(d, lba + 1, count - 1, k - 1);
      var rest := ReadRun(d, lba + 1, count - 1);
      assert ReadRun(d, lba, count) == d[lba] + rest;
      assert (d[lba] + rest)[k * SECTOR..k * SECTOR + SECTOR] == rest[(k - 1) * SECTOR..(k - 1) * SECTOR + SECTOR];
    }
  }

  /** Writing changes no sector outside the run and keeps the sector size. */
  lemma {:induction false} WriteRunFrame(d: Disk, lba: nat, count: nat, buf: seq<byte>)
    requires IsDisk(d) && lba + count <= |d| && |buf| == count * SECTOR
    ensures IsDisk(WriteRun(d, lba, count, buf))
    ensures forall i :: 0 <= i < |d| && !(lba <= i < lba + count) ==> WriteRun(d, lba, count, buf)[i] == d[i]
    decreases count
  {
    if count != 0 {
      WriteRunFrame(d[lba := buf[..SECTOR]], lba + 1, count - 1, buf[SECTOR..]);
    }
  }

  /** What is written is read back. */
  lemma {:induction false} RunRoundTrip(d: Disk, lba: nat, count: nat, buf: seq<byte>)
    requires IsDisk(d) && lba + count <= |d| && |buf| == count * SECTOR
    ensures ReadRun(WriteRun(d, lba, count, buf), lba, count) == buf
    decreases count
  {
    if count != 0 {
      var e := d[lba := buf[..SECTOR]];
      RunRoundTrip(e, lba + 1, count - 1, buf[SECTOR..]);
      WriteRunFrame(e, lba + 1, count - 1, buf[SECTOR..]);
      assert buf == buf[..SECTOR] + buf[SECTOR..];
    }
  }
}
