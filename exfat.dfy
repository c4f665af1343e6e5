/** What `writeexfat` leaves in the destination. It merges sector 0, reads the rest of the
    boot region (11 sectors, section 3.1 of Microsoft's exFAT File System Specification,
    sector size 2^BytesPerSectorShift with the shift at offset 108), folds the checksum,
    and writes the checksum sector and then the merged region. */
module Exfat {
  import opened Bytes
  import opened Wrappers
  import opened Checksum

  /** Offset of BytesPerSectorShift in the boot sector. */
  const SectorShiftOffset: nat := 108
  /** Sectors covered by the boot checksum: the boot sector, 8 extended boot sectors, the
      OEM parameters and the reserved sector. */
  const BootRegionSectors: nat := 11

  /** The exceptions `writeexfat` raises before it writes anything. */
  datatype ExfatError =
    | SectorShiftMissing  // IndexError: the merged sector has no byte 108
    | NegativeReadCount   // OSError (EINVAL): `os.read` with a negative count, sectors below 64 bytes

  /** The checksummed boot region, its sector size and the destination cursor after it. */
  datatype BootRegion = BootRegion(bytes: seq<Byte>, sectorSize: nat, end: nat)

  /** Python's `2**k`. */
  function Pow2(k: nat): nat
  {
    if k == 0 then 1 else 2 * Pow2(k - 1)
  }

  /** `buffer[:120] + os.read(source, 512)[120:390] + buffer[390:]` with
      `buffer = os.read(dest, 512)`. */
  function MergedSector(src: seq<Byte>, dst: seq<Byte>): seq<Byte>
  {
    var head := Take(dst, 512);
    Take(head, 120) + Slice(Take(src, 512), 120, 390) + Drop(head, 390)
  }

  /** The merge keeps destination bytes [0, 120) and [390, 512) and takes only source bytes
      [120, 390). */
  lemma MergedSectorLayout(src: seq<Byte>, dst: seq<Byte>)
    requires |src| >= 512 && |dst| >= 512
    ensures MergedSector(src, dst) == dst[..120] + src[120..390] + dst[390..512]
  {
  }

  /** Once the destination holds byte 108, the sector shift comes from the destination,
      never from the source. */
  lemma SectorShiftFromDestination(src: seq<Byte>, dst: seq<Byte>)
    requires |dst| > SectorShiftOffset
    ensures |MergedSector(src, dst)| > SectorShiftOffset
    ensures MergedSector(src, dst)[SectorShiftOffset] == dst[SectorShiftOffset]
  {
  }

  /** Lines 177-182: the merged sector, the sector size it declares, and the rest of the
      11-sector region read from the destination's cursor (at min(512, |dst|)). */
  function ReadRegion(src: seq<Byte>, dst: seq<Byte>): Result<BootRegion, ExfatError>
  {
    var merged := MergedSector(src, dst);
    if |merged| <= SectorShiftOffset then Failure(SectorShiftMissing)
    else
      var size := Pow2(merged[SectorShiftOffset] as nat);
      if size * BootRegionSectors < 512 then Failure(NegativeReadCount)
      else
        var start := Min(512, |dst|);
        var extra := Slice(dst, start, start + (size * BootRegionSectors - 512));
        Success(BootRegion(merged + extra, size, start + |extra|))
  }

  /** The destination after `writeexfat` as written: the checksum, which includes every
      byte, lands at the cursor left by the region read, and the merged region follows it
      because the `lseek` back to 0 moves the source descriptor. */
  function ImageAsWritten(src: seq<Byte>, dst: seq<Byte>): Result<seq<Byte>, ExfatError>
  {
    match ReadRegion(src, dst)
    case Failure(e) => Failure(e)
    case Success(region) =>
      var sector := ChecksumSector(BootChecksum(region.bytes, AsWrittenSkips), region.sectorSize);
      Success(Overwrite(Overwrite(dst, region.end, sector), region.end + |sector|, region.bytes))
  }

  /** The destination after `writeexfat` with the two defects corrected: the checksum skips
      offsets 106, 107 and 112, and the destination is rewound before the region is
      written back. */
  function ImageCorrected(src: seq<Byte>, dst: seq<Byte>): Result<seq<Byte>, ExfatError>
  {
    match ReadRegion(src, dst)
    case Failure(e) => Failure(e)
    case Success(region) =>
      var sector := ChecksumSector(BootChecksum(region.bytes, StandardSkips), region.sectorSize);
      Success(Overwrite(Overwrite(dst, region.end, sector), 0, region.bytes))
  }

  /** Full sectors on both sides, a sector size the region read accepts, and a destination
      that holds the whole boot region. */
  predicate WellSized(src: seq<Byte>, dst: seq<Byte>)
  {
    && |src| >= 512 && |dst| >= 512
    && var size := Pow2(dst[SectorShiftOffset] as nat);
    && size * BootRegionSectors >= 512
    && |dst| >= size * BootRegionSectors
  }

  /** The checksummed region is the merged sector followed by destination bytes
      [512, 11·S), with S = 2^dst[108]; the cursor ends at 11·S. */
  lemma RegionLayout(src: seq<Byte>, dst: seq<Byte>)
    requires WellSized(src, dst)
    ensures var size := Pow2(dst[SectorShiftOffset] as nat);
            ReadRegion(src, dst)
            == Success(BootRegion(MergedSector(src, dst) + dst[512..size * BootRegionSectors],
                                  size, size * BootRegionSectors))
  {
    SectorShiftFromDestination(src, dst);
  }

  /** Attempting a read of the size the checksum needs: sector sizes below 64 bytes make the
      count negative. */
  lemma SmallSectorsFail(src: seq<Byte>, dst: seq<Byte>)
    requires |dst| >= 512 && dst[SectorShiftOffset] < 6
    ensures ReadRegion(src, dst) == Failure(NegativeReadCount)
    ensures ImageAsWritten(src, dst) == Failure(NegativeReadCount)
  {
    SectorShiftFromDestination(src, dst);
    var k := dst[SectorShiftOffset] as nat;
    assert Pow2(k) <= 32 by {
      if k == 0 {} else if k == 1 {} else if k == 2 {} else if k == 3 {} else if k == 4 {}
      else { assert k == 5; assert Pow2(5) == 32; }
    }
  }

  /** Where the as-written writer puts things: destination bytes [0, 11·S) keep their old
      contents, the checksum sector lands at 11·S and the merged region at 12·S. */
  lemma AsWrittenLayout(src: seq<Byte>, dst: seq<Byte>)
    requires WellSized(src, dst)
    ensures var size := Pow2(dst[SectorShiftOffset] as nat);
            var region := MergedSector(src, dst) + dst[512..size * BootRegionSectors];
            var img := ImageAsWritten(src, dst);
            && img.Success?
            && |img.value| == Max(|dst|, 23 * size)
            && img.value[..11 * size] == dst[..11 * size]
            && img.value[11 * size..12 * size] == ChecksumSector(BootChecksum(region, AsWrittenSkips), size)
            && img.value[12 * size..23 * size] == region
            && img.value[23 * size..] == Drop(dst, 23 * size)
  {
    RegionLayout(src, dst);
    var size := Pow2(dst[SectorShiftOffset] as nat);
    var region := MergedSector(src, dst) + dst[512..size * BootRegionSectors];
    var sector := ChecksumSector(BootChecksum(region, AsWrittenSkips), size);
    assert ImageAsWritten(src, dst)
           == Success(Overwrite(Overwrite(dst, 11 * size, sector), 12 * size, region));
    SectorThenRegionAfterIt(dst, sector, region, size);
  }

  /** Writing a sector at 11·S and an 11-sector region right after it leaves [0, 11·S)
      and everything from 23·S on alone. */
  lemma SectorThenRegionAfterIt(dst: seq<Byte>, sector: seq<Byte>, region: seq<Byte>, size: nat)
    requires |sector| == size && |region| == 11 * size && |dst| >= 11 * size
    ensures var img := Overwrite(Overwrite(dst, 11 * size, sector), 12 * size, region);
            && |img| == Max(|dst|, 23 * size)
            && img[..11 * size] == dst[..11 * size]
            && img[11 * size..12 * size] == sector
            && img[12 * size..23 * size] == region
            && img[23 * size..] == Drop(dst, 23 * size)
  {
    var d1 := Overwrite(dst, 11 * size, sector);
    OverwriteLayout(dst, 11 * size, sector);
    var img := Overwrite(d1, 12 * size, region);
    OverwriteLayout(d1, 12 * size, region);
    var tail := Drop(d1, 23 * size);
    assert |tail| == |Drop(dst, 23 * size)|;
    forall k | 0 <= k < |tail| ensures tail[k] == Drop(dst, 23 * size)[k] {
      assert tail[k] == d1[23 * size + k];
    }
    assert tail == Drop(dst, 23 * size);
    assert img[..11 * size] == img[..12 * size][..11 * size] == d1[..12 * size][..11 * size];
    assert img[11 * size..12 * size] == img[..12 * size][11 * size..] == d1[..12 * size][11 * size..];
    assert d1[..12 * size][11 * size..] == d1[11 * size..12 * size];
  }

  /** Whenever the new boot code differs from the old in bytes [120, 390), the as-written
      writer leaves the old boot sector in place: sector 0 never receives the merge. */
  lemma AsWrittenKeepsOldBootSector(src: seq<Byte>, dst: seq<Byte>)
    requires WellSized(src, dst)
    requires src[120..390] != dst[120..390]
    ensures ImageAsWritten(src, dst).Success?
    ensures ImageAsWritten(src, dst).value[..512] == dst[..512] != MergedSector(src, dst)
  {
    var size := Pow2(dst[SectorShiftOffset] as nat);
    assert ImageAsWritten(src, dst).Success? && |ImageAsWritten(src, dst).value| >= 11 * size
           && ImageAsWritten(src, dst).value[..11 * size] == dst[..11 * size] by {
      AsWrittenLayout(src, dst);
    }
    assert MergedSector(src, dst)[120..390] == src[120..390] by {
      MergedSectorLayout(src, dst);
    }
    KeptPrefixDiffers(ImageAsWritten(src, dst).value, dst, MergedSector(src, dst), src, 11 * size);
  }

  /** A file whose first n ≥ 512 bytes are kept still holds the old sector 0, which is not a
      merge that took different bytes [120, 390). */
  lemma KeptPrefixDiffers(img: seq<Byte>, dst: seq<Byte>, merged: seq<Byte>, src: seq<Byte>, n: nat)
    requires 512 <= n <= |img| && n <= |dst| && |src| >= 390 && |merged| >= 390
    requires img[..n] == dst[..n]
    requires merged[120..390] == src[120..390] != dst[120..390]
    ensures img[..512] == dst[..512] != merged
  {
    assert img[..512] == img[..n][..512];
    assert dst[..512][120..390] == dst[120..390];
  }

  /** Where the corrected writer puts things: the merged region over [0, 11·S), the
      standard checksum sector at 11·S, and everything after untouched. */
  lemma CorrectedLayout(src: seq<Byte>, dst: seq<Byte>)
    requires WellSized(src, dst)
    ensures var size := Pow2(dst[SectorShiftOffset] as nat);
            var region := MergedSector(src, dst) + dst[512..size * BootRegionSectors];
            var img := ImageCorrected(src, dst);
            && img.Success?
            && |img.value| == Max(|dst|, 12 * size)
            && img.value[..11 * size] == region
            && img.value[11 * size..12 * size] == ChecksumSector(BootChecksum(region, StandardSkips), size)
            && img.value[12 * size..] == Drop(dst, 12 * size)
  {
    RegionLayout(src, dst);
    var size := Pow2(dst[SectorShiftOffset] as nat);
    var region := MergedSector(src, dst) + dst[512..size * BootRegionSectors];
    var sector := ChecksumSector(BootChecksum(region, StandardSkips), size);
    assert ImageCorrected(src, dst) == Success(Overwrite(Overwrite(dst, 11 * size, sector), 0, region));
    SectorThenRegionBeforeIt(dst, sector, region, size);
  }

  /** Writing a sector at 11·S and then an 11-sector region at 0 puts the region in front
      of the sector and leaves everything from 12·S on alone. */
  lemma SectorThenRegionBeforeIt(dst: seq<Byte>, sector: seq<Byte>, region: seq<Byte>, size: nat)
    requires |sector| == size && |region| == 11 * size && |dst| >= 11 * size
    ensures var img := Overwrite(Overwrite(dst, 11 * size, sector), 0, region);
            && |img| == Max(|dst|, 12 * size)
            && img[..11 * size] == region
            && img[11 * size..12 * size] == sector
            && img[12 * size..] == Drop(dst, 12 * size)
  {
    var d1 := Overwrite(dst, 11 * size, sector);
    OverwriteLayout(dst, 11 * size, sector);
    var img := Overwrite(d1, 0, region);
    OverwriteLayout(d1, 0, region);
    assert img[11 * size..] == d1[11 * size..];
    assert img[11 * size..12 * size] == d1[11 * size..][..size] == d1[11 * size..12 * size];
    assert img[12 * size..] == d1[11 * size..][size..] == d1[12 * size..];
  }

  /** The corrected writer's result is self-consistent: folding the boot region it wrote
      reproduces the checksum sector it wrote, and every aligned group of that sector reads
      back as the checksum. */
  lemma CorrectedChecksumReproduces(src: seq<Byte>, dst: seq<Byte>)
    requires WellSized(src, dst)
    ensures var size := Pow2(dst[SectorShiftOffset] as nat);
            match ImageCorrected(src, dst)
            case Failure(_) => false
            case Success(img) =>
              && |img| >= 12 * size
              && img[11 * size..12 * size] == ChecksumSector(BootChecksum(img[..11 * size], StandardSkips), size)
              && GroupsReadBack(img, 11 * size, BootChecksum(img[..11 * size], StandardSkips), size)
  {
    CorrectedLayout(src, dst);
    var size := Pow2(dst[SectorShiftOffset] as nat);
    var region := MergedSector(src, dst) + dst[512..size * BootRegionSectors];
    StoredRegionConsistent(ImageCorrected(src, dst).value, region, size);
  }

  /** A file holding a boot region at offset 0 and that region's standard checksum sector
      right after it passes the check a reader of the volume performs. */
  lemma StoredRegionConsistent(img: seq<Byte>, region: seq<Byte>, size: nat)
    requires |region| == 11 * size && |img| >= 12 * size
    requires img[..11 * size] == region
    requires img[11 * size..12 * size] == ChecksumSector(BootChecksum(region, StandardSkips), size)
    ensures img[11 * size..12 * size] == ChecksumSector(BootChecksum(img[..11 * size], StandardSkips), size)
    ensures GroupsReadBack(img, 11 * size, BootChecksum(img[..11 * size], StandardSkips), size)
  {
    StoredSectorGroups(img, 11 * size, BootChecksum(region, StandardSkips), size);
  }
}
