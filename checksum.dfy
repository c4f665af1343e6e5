/** The exFAT boot-region checksum (section 3.4, "Main and Backup Boot Checksum
    Sub-region", of Microsoft's exFAT File System Specification) as `writeexfat` computes
    it: a 32-bit rotate-and-add fold over the region, then the accumulator packed
    little-endian and repeated to fill one sector. */
module Checksum {
  import opened Bytes

  /** The byte offsets the loop skips as written: its `case 106,107,112:` is a sequence
      pattern, which an integer index never matches, so no byte is skipped. */
  const AsWrittenSkips: set<nat> := {}

  /** The offsets the exFAT specification leaves out of the checksum: VolumeFlags (106
      and 107) and PercentInUse (112). */
  const StandardSkips: set<nat> := {106, 107, 112}

  /** One step of the fold: `((checksum << 31) | (checksum >> 1)) + byte` followed by
      `checksum &= 0xFFFFFFFF`, evaluated on 32-bit values (`StepMatchesPython` shows this
      agrees with Python's unbounded evaluation followed by the mask). The step is a rotate
      right by one followed by a wrapping 32-bit add. */
  function Step(acc: bv32, b: Byte): (r: bv32)
    ensures r == acc.RotateRight(1) + b as bv32
  {
    ((acc << 31) | (acc >> 1)) + b as bv32
  }

  /** Python's step before the mask: on 64-bit values nothing overflows (the value stays
      below 2^63 + 2^32), so masking it to 32 bits gives exactly `Step`. */
  lemma StepMatchesPython(acc: bv32, b: Byte)
    ensures (((acc as bv64 << 31) | (acc as bv64 >> 1)) + b as bv64) & 0xFFFF_FFFF == Step(acc, b) as bv64
  {
  }

  /** The rotate in the step is one-to-one. */
  lemma RotateInjective(a1: bv32, a2: bv32)
    ensures (a1 << 31) | (a1 >> 1) == (a2 << 31) | (a2 >> 1) ==> a1 == a2
  {
  }

  /** A step loses nothing: the accumulator before it is determined by the one after it
      and the byte. */
  lemma StepKeepsAccumulator(a1: bv32, a2: bv32, b: Byte)
    ensures Step(a1, b) == Step(a2, b) ==> a1 == a2
  {
    RotateInjective(a1, a2);
  }

  /** Different bytes on the same accumulator give different results. */
  lemma StepSeesByte(a: bv32, b1: Byte, b2: Byte)
    ensures b1 != b2 ==> Step(a, b1) != Step(a, b2)
  {
    assert b1 != b2 ==> b1 as bv32 != b2 as bv32;
  }

  /** The accumulator after the loop has visited indices [0, n) of `region`, skipping the
      indices in `skips`. */
  function ChecksumPrefix(region: seq<Byte>, n: nat, skips: set<nat>): bv32
    requires n <= |region|
    decreases n
  {
    if n == 0 then 0
    else
      var acc := ChecksumPrefix(region, n - 1, skips);
      if n - 1 in skips then acc else Step(acc, region[n - 1])
  }

  /** The checksum of a whole boot region. */
  function BootChecksum(region: seq<Byte>, skips: set<nat>): bv32
  {
    ChecksumPrefix(region, |region|, skips)
  }

  /** The `for index, byte in enumerate(buffer)` loop of `writeexfat`. */
  method ComputeChecksum(region: seq<Byte>, skips: set<nat>) returns (checksum: bv32)
    ensures checksum == BootChecksum(region, skips)
  {
    checksum := 0;
    var index := 0;
    while index < |region|
      invariant 0 <= index <= |region|
      invariant checksum == ChecksumPrefix(region, index, skips)
    {
      if index !in skips {
        checksum := Step(checksum, region[index]);
      }
      index := index + 1;
    }
  }

  /** Bytes at skipped offsets do not affect the fold. */
  lemma {:induction false} PrefixIgnoresSkipped(r1: seq<Byte>, r2: seq<Byte>, n: nat, skips: set<nat>)
    requires n <= |r1| && n <= |r2|
    requires forall i :: 0 <= i < n && i !in skips ==> r1[i] == r2[i]
    ensures ChecksumPrefix(r1, n, skips) == ChecksumPrefix(r2, n, skips)
    decreases n
  {
    if n > 0 {
      PrefixIgnoresSkipped(r1, r2, n - 1, skips);
    }
  }

  /** Regions that agree everywhere except at skipped offsets have the same checksum. */
  lemma ChecksumIgnoresSkipped(r1: seq<Byte>, r2: seq<Byte>, skips: set<nat>)
    requires |r1| == |r2|
    requires forall i :: 0 <= i < |r1| && i !in skips ==> r1[i] == r2[i]
    ensures BootChecksum(r1, skips) == BootChecksum(r2, skips)
  {
    PrefixIgnoresSkipped(r1, r2, |r1|, skips);
  }

  /** With the standard exclusions, VolumeFlags and PercentInUse can change without
      invalidating the stored checksum. */
  lemma StandardChecksumIgnoresFlags(r1: seq<Byte>, r2: seq<Byte>)
    requires |r1| == |r2|
    requires forall i :: 0 <= i < |r1| && i != 106 && i != 107 && i != 112 ==> r1[i] == r2[i]
    ensures BootChecksum(r1, StandardSkips) == BootChecksum(r2, StandardSkips)
  {
    ChecksumIgnoresSkipped(r1, r2, StandardSkips);
  }

  /** An all-zero prefix folds to zero, whatever is skipped. */
  lemma {:induction false} ZeroPrefix(region: seq<Byte>, n: nat, skips: set<nat>)
    requires n <= |region|
    requires forall i :: 0 <= i < n ==> region[i] == 0
    ensures ChecksumPrefix(region, n, skips) == 0
    decreases n
  {
    if n > 0 {
      ZeroPrefix(region, n - 1, skips);
    }
  }

  /** As written, the VolumeFlags byte at offset 106 takes part: two 107-byte regions that
      differ only there fold to 0 and to 1, while the standard fold gives both the same. */
  lemma AsWrittenChecksumSeesVolumeFlags()
    ensures BootChecksum(Zeros(107), AsWrittenSkips) == 0
    ensures BootChecksum(Zeros(106) + [1], AsWrittenSkips) == 1
    ensures BootChecksum(Zeros(106) + [1], StandardSkips) == BootChecksum(Zeros(107), StandardSkips)
  {
    var flagged := Zeros(106) + [1];
    ZeroPrefix(Zeros(107), 107, AsWrittenSkips);
    ZeroPrefix(flagged, 106, AsWrittenSkips);
    assert Step(0, 1) == 1;
    StandardChecksumIgnoresFlags(flagged, Zeros(107));
  }

  /** With nothing skipped, a difference at index i survives every later step. */
  lemma {:induction false} PrefixSeesIndex(r1: seq<Byte>, r2: seq<Byte>, i: nat, n: nat)
    requires i < n <= |r1| == |r2|
    requires forall j :: 0 <= j < |r1| && j != i ==> r1[j] == r2[j]
    requires r1[i] != r2[i]
    ensures ChecksumPrefix(r1, n, AsWrittenSkips) != ChecksumPrefix(r2, n, AsWrittenSkips)
    decreases n
  {
    var a1, a2 := ChecksumPrefix(r1, n - 1, AsWrittenSkips), ChecksumPrefix(r2, n - 1, AsWrittenSkips);
    if n - 1 == i {
      PrefixIgnoresSkipped(r1, r2, i, AsWrittenSkips);
      StepSeesByte(a1, r1[i], r2[i]);
    } else {
      PrefixSeesIndex(r1, r2, i, n - 1);
      StepKeepsAccumulator(a1, a2, r1[n - 1]);
    }
  }

  /** As written, every byte of the region takes part in the checksum: two regions that
      differ at exactly one index, VolumeFlags and PercentInUse included, always have
      different checksums. */
  lemma AsWrittenChecksumSeesEveryByte(r1: seq<Byte>, r2: seq<Byte>, i: nat)
    requires i < |r1| == |r2|
    requires forall j :: 0 <= j < |r1| && j != i ==> r1[j] == r2[j]
    requires r1[i] != r2[i]
    ensures BootChecksum(r1, AsWrittenSkips) != BootChecksum(r2, AsWrittenSkips)
  {
    PrefixSeesIndex(r1, r2, i, |r1|);
  }

  // ---------------------------------------------------------------- the checksum sector

  /** `struct.pack("<L", checksum)`. */
  function LittleEndian(c: bv32): (r: seq<Byte>)
    ensures |r| == 4 && FromLittleEndian(r) == c
  {
    [(c & 0xFF) as Byte, ((c >> 8) & 0xFF) as Byte, ((c >> 16) & 0xFF) as Byte, (c >> 24) as Byte]
  }

  /** Reads a 4-byte little-endian group back as an accumulator value. */
  function FromLittleEndian(b: seq<Byte>): bv32
    requires |b| == 4
  {
    (b[0] as bv32) | (b[1] as bv32 << 8) | (b[2] as bv32 << 16) | (b[3] as bv32 << 24)
  }

  /** Python's `pattern * n` for a 4-byte pattern. */
  function Repeat4(pattern: seq<Byte>, n: nat): (r: seq<Byte>)
    requires |pattern| == 4
    ensures |r| == 4 * n
    ensures forall i :: 0 <= i < |r| ==> r[i] == pattern[i % 4]
  {
    if n == 0 then [] else pattern + Repeat4(pattern, n - 1)
  }

  /** The checksum sector: the packed checksum repeated over `sectorSize` bytes. */
  function ChecksumSector(c: bv32, sectorSize: nat): seq<Byte>
  {
    seq(sectorSize, i => LittleEndian(c)[i % 4])
  }

  /** The checksum sector is what `writeexfat` builds,
      `(struct.pack("<L", checksum) * math.ceil(sectorSize / 4))[:sectorSize]`: enough
      repetitions to cover the sector, cut to its size. The float division is exact because
      the sector size is a power of two. */
  lemma ChecksumSectorIsRepetition(c: bv32, sectorSize: nat)
    ensures 4 * ((sectorSize + 3) / 4) >= sectorSize
    ensures ChecksumSector(c, sectorSize) == Repeat4(LittleEndian(c), (sectorSize + 3) / 4)[..sectorSize]
  {
    var repeated := Repeat4(LittleEndian(c), (sectorSize + 3) / 4);
    assert |repeated| >= sectorSize;
    forall i | 0 <= i < sectorSize
      ensures ChecksumSector(c, sectorSize)[i] == repeated[..sectorSize][i]
    {
    }
  }

  /** Every aligned 4-byte group of the `size` bytes stored at offset `at` of `img` reads
      back as `c`. */
  ghost predicate GroupsReadBack(img: seq<Byte>, at: nat, c: bv32, size: nat)
  {
    forall k :: 0 <= k && 4 * k + 4 <= size && at + 4 * k + 4 <= |img| ==>
      FromLittleEndian(img[at + 4 * k..at + 4 * k + 4]) == c
  }

  /** Each aligned 4-byte group of a checksum sector is the packed checksum. */
  lemma SectorGroup(c: bv32, size: nat, k: nat)
    requires 4 * k + 4 <= size
    ensures ChecksumSector(c, size)[4 * k..4 * k + 4] == LittleEndian(c)
  {
    var s := ChecksumSector(c, size);
    var p := LittleEndian(c);
    assert (4 * k) % 4 == 0 && (4 * k + 1) % 4 == 1 && (4 * k + 2) % 4 == 2 && (4 * k + 3) % 4 == 3;
    assert s[4 * k] == p[0] && s[4 * k + 1] == p[1] && s[4 * k + 2] == p[2] && s[4 * k + 3] == p[3];
  }

  /** A checksum sector stored at offset `at` of a file reads back, group by group, as the
      checksum. */
  lemma StoredSectorGroups(img: seq<Byte>, at: nat, c: bv32, size: nat)
    requires at + size <= |img|
    requires img[at..at + size] == ChecksumSector(c, size)
    ensures GroupsReadBack(img, at, c, size)
  {
    forall k | 0 <= k && 4 * k + 4 <= size && at + 4 * k + 4 <= |img|
      ensures FromLittleEndian(img[at + 4 * k..at + 4 * k + 4]) == c
    {
      SectorGroup(c, size, k);
      var g := img[at + 4 * k..at + 4 * k + 4];
      var h := img[at..at + size][4 * k..4 * k + 4];
      forall j | 0 <= j < 4 ensures g[j] == h[j] {
        assert g[j] == img[at + 4 * k + j];
        assert h[j] == img[at..at + size][4 * k + j];
      }
      assert g == h;
    }
  }
}
