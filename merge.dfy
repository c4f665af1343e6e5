/** What the MBR, FAT32 and HFS writers leave in the destination, as functions of the
    source and destination contents before the call. Each writer builds one buffer from
    the two files and writes it at offset 0. */
module Merge {
  import opened Bytes

  /** Length of the boot-code part of a master boot record. */
  const MbrCodeLength: nat := 440
  /** Length of one sector as every writer reads it. */
  const SectorLength: nat := 512
  /** The FAT32 jump instruction occupies bytes [0, 3); the BIOS parameter block,
      from BS_OEMName through BS_FilSysType, occupies bytes [3, 90). */
  const BpbStart: nat := 3
  const BpbEnd: nat := 90
  /** HFS boot blocks: the first 1024 bytes. */
  const HfsBootLength: nat := 1024

  // ---------------------------------------------------------------- MBR

  /** `os.read(source, 440) + os.read(dest, 512)[440:]`. */
  function MbrBuffer(src: seq<Byte>, dst: seq<Byte>): seq<Byte>
  {
    Take(src, MbrCodeLength) + Drop(Take(dst, SectorLength), MbrCodeLength)
  }

  /** The destination after `writembr`. */
  function MbrImage(src: seq<Byte>, dst: seq<Byte>): seq<Byte>
  {
    Overwrite(dst, 0, MbrBuffer(src, dst))
  }

  /** With a full boot-code source and a full sector in the destination, the first 440
      bytes become the source's and everything from 440 on (disk signature, partition
      table, the 0x55AA marker, and the rest of the disk) is left as it was. */
  lemma MbrKeepsPartitionTable(src: seq<Byte>, dst: seq<Byte>)
    requires |src| >= MbrCodeLength && |dst| >= SectorLength
    ensures var r := MbrImage(src, dst);
            |r| == |dst| && r[..MbrCodeLength] == src[..MbrCodeLength]
            && r[MbrCodeLength..] == dst[MbrCodeLength..]
  {
    var r := MbrImage(src, dst);
    var b := MbrBuffer(src, dst);
    assert |b| == SectorLength;
    assert r[..MbrCodeLength] == src[..MbrCodeLength];
    assert forall i :: MbrCodeLength <= i < |r| ==> r[i] == dst[i];
    assert r[MbrCodeLength..] == dst[MbrCodeLength..];
  }

  /** A source shorter than 440 bytes shifts the preserved partition-table bytes down to
      sit right after it: the 72 bytes from offset 440 land at offset |src|, and only the
      bytes from |src| + 72 on keep their place. */
  lemma MbrShortSourceShifts(src: seq<Byte>, dst: seq<Byte>)
    requires |src| < MbrCodeLength && |dst| >= SectorLength
    ensures var r := MbrImage(src, dst);
            var k := |src|;
            |r| == |dst| && r[..k] == src && r[k..k + 72] == dst[MbrCodeLength..SectorLength]
            && r[k + 72..] == dst[k + 72..]
  {
    var r := MbrImage(src, dst);
    var k := |src|;
    var b := MbrBuffer(src, dst);
    assert |b| == k + 72;
    assert r[..k] == src;
    assert r[k..k + 72] == dst[MbrCodeLength..SectorLength];
    assert r[k + 72..] == dst[k + 72..];
  }

  // ---------------------------------------------------------------- FAT32

  /** `os.read(source, 3) + os.read(dest, 512)[3:90]`, then, after seeking the source to
      90, `os.read(source, 422)`. */
  function Fat32Buffer(src: seq<Byte>, dst: seq<Byte>): seq<Byte>
  {
    Take(src, BpbStart) + Slice(Take(dst, SectorLength), BpbStart, BpbEnd)
      + Slice(src, BpbEnd, BpbEnd + 422)
  }

  /** The destination after `writefat32` (and the root copy's `writepbr`). */
  function Fat32Image(src: seq<Byte>, dst: seq<Byte>): seq<Byte>
  {
    Overwrite(dst, 0, Fat32Buffer(src, dst))
  }

  /** The buffer's length follows from the short reads, and it is a full 512-byte sector
      exactly when the source has 512 bytes and the destination at least 90. */
  lemma Fat32BufferLength(src: seq<Byte>, dst: seq<Byte>)
    ensures |Fat32Buffer(src, dst)|
            == Min(3, |src|) + Max(0, Min(BpbEnd, |dst|) - BpbStart) + Max(0, Min(512, |src|) - BpbEnd)
    ensures |Fat32Buffer(src, dst)| == SectorLength <==> |src| >= SectorLength && |dst| >= BpbEnd
  {
  }

  /** With full sectors on both sides the sector becomes jump + BPB + boot code, the BPB
      bytes [3, 90) are the destination's own, and nothing from offset 512 on changes. */
  lemma Fat32KeepsBpb(src: seq<Byte>, dst: seq<Byte>)
    requires |src| >= SectorLength && |dst| >= SectorLength
    ensures var r := Fat32Image(src, dst);
            r == src[..BpbStart] + dst[BpbStart..BpbEnd] + src[BpbEnd..SectorLength] + dst[SectorLength..]
            && r[BpbStart..BpbEnd] == dst[BpbStart..BpbEnd]
  {
    var r := Fat32Image(src, dst);
    var b := Fat32Buffer(src, dst);
    var want := src[..BpbStart] + dst[BpbStart..BpbEnd] + src[BpbEnd..SectorLength] + dst[SectorLength..];
    assert |b| == SectorLength;
    assert |r| == |want|;
    forall i | 0 <= i < |r| ensures r[i] == want[i] {
      if i < BpbStart {
      } else if i < BpbEnd {
      } else if i < SectorLength {
      } else {
      }
    }
  }

  /** Source bytes [3, 90) never reach the destination: two sources that differ only there
      produce the same result. */
  lemma Fat32IgnoresSourceBpb(src: seq<Byte>, src': seq<Byte>, dst: seq<Byte>)
    requires |src| == |src'|
    requires forall i :: 0 <= i < |src| && !(BpbStart <= i < BpbEnd) ==> src[i] == src'[i]
    ensures Fat32Image(src, dst) == Fat32Image(src', dst)
  {
    assert Take(src, BpbStart) == Take(src', BpbStart);
    assert Slice(src, BpbEnd, BpbEnd + 422) == Slice(src', BpbEnd, BpbEnd + 422);
    assert Fat32Buffer(src, dst) == Fat32Buffer(src', dst);
  }

  // ---------------------------------------------------------------- HFS

  /** The destination after `writehfs`: `os.write(dest, os.read(source, 1024))`. */
  function HfsImage(src: seq<Byte>, dst: seq<Byte>): seq<Byte>
  {
    Overwrite(dst, 0, Take(src, HfsBootLength))
  }

  /** The first k = min(1024, |src|) bytes become the source's, the rest of the destination
      is untouched, and the file only grows if it was shorter than k. */
  lemma HfsCopiesBootBlocks(src: seq<Byte>, dst: seq<Byte>)
    ensures var k := Min(HfsBootLength, |src|);
            var r := HfsImage(src, dst);
            |r| == Max(|dst|, k) && r[..k] == src[..k] && r[k..] == Drop(dst, k)
  {
    var k := Min(HfsBootLength, |src|);
    var r := HfsImage(src, dst);
    assert r[..k] == src[..k];
    assert r[k..] == Drop(dst, k);
  }

  /** No destination byte below k is read: destinations that agree from k on give the
      same result. */
  lemma HfsIgnoresDestBootBlocks(src: seq<Byte>, dst: seq<Byte>, dst': seq<Byte>)
    requires |dst| == |dst'|
    requires forall i :: Min(HfsBootLength, |src|) <= i < |dst| ==> dst[i] == dst'[i]
    ensures HfsImage(src, dst) == HfsImage(src, dst')
  {
    var r, r' := HfsImage(src, dst), HfsImage(src, dst');
    assert |r| == |r'|;
    forall i | 0 <= i < |r| ensures r[i] == r'[i] {
    }
  }
}
