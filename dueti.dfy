/** The boot-sector writers and the filesystem detection of `src/dueti.py`, working
    through descriptors whose cursors advance with every read and write. Each writer
    receives the two descriptors `os.open` gives it, both at offset 0. */
module Dueti {
  import opened Bytes
  import opened Wrappers
  import opened RawIo
  import opened Merge
  import opened Checksum
  import opened Exfat
  import opened Detect

  /** `writembr`: boot code from the source, the destination's bytes from 440 on
      preserved, the result written back at offset 0. */
  method WriteMbr(source: Fd, dest: Fd)
    requires source != dest && source.pos == 0 && dest.pos == 0
    modifies source`pos, dest
    ensures dest.data == MbrImage(old(source.data), old(dest.data))
  {
    var buffer := source.Read(MbrCodeLength);
    var sector := dest.Read(SectorLength);
    buffer := buffer + Drop(sector, MbrCodeLength);
    dest.Lseek(0);
    dest.Write(buffer);
  }

  /** `writefat32`: jump and boot code from the source around the destination's BPB. */
  method WriteFat32(source: Fd, dest: Fd)
    requires source != dest && source.pos == 0 && dest.pos == 0
    modifies source`pos, dest
    ensures dest.data == Fat32Image(old(source.data), old(dest.data))
  {
    var buffer := source.Read(BpbStart);
    var sector := dest.Read(SectorLength);
    buffer := buffer + Slice(sector, BpbStart, BpbEnd);
    source.Lseek(BpbEnd);
    var code := source.Read(422);
    buffer := buffer + code;
    dest.Lseek(0);
    dest.Write(buffer);
  }

  /** `writehfs`: the source's first 1024 bytes written over the destination's. */
  method WriteHfs(source: Fd, dest: Fd)
    requires source != dest && source.pos == 0 && dest.pos == 0
    modifies source`pos, dest
    ensures dest.data == HfsImage(old(source.data), old(dest.data))
  {
    var blocks := source.Read(HfsBootLength);
    dest.Write(blocks);
  }

  /** The first part of `writeexfat`: merge sector 0, read its sector size, and read the
      rest of the boot region from the destination. Nothing is written. */
  method ReadBootRegion(source: Fd, dest: Fd) returns (r: Result<BootRegion, ExfatError>)
    requires source != dest && source.pos == 0 && dest.pos == 0
    modifies source`pos, dest`pos
    ensures r == ReadRegion(source.data, dest.data)
    ensures r.Success? ==> dest.pos == r.value.end
  {
    var head := dest.Read(512);
    var block := source.Read(512);
    var buffer := Take(head, 120) + Slice(block, 120, 390) + Drop(head, 390);
    assert buffer == MergedSector(source.data, dest.data);
    assert dest.pos == Min(512, |dest.data|);
    if |buffer| <= SectorShiftOffset {
      return Failure(SectorShiftMissing);
    }
    var sectorSize := Pow2(buffer[SectorShiftOffset] as nat);
    if sectorSize * BootRegionSectors - 512 < 0 {
      // os.read rejects a negative count
      return Failure(NegativeReadCount);
    }
    var rest := dest.Read(sectorSize * BootRegionSectors - 512);
    r := Success(BootRegion(buffer + rest, sectorSize, dest.pos));
  }

  /** `writeexfat` as written: the loop skips no byte, the checksum sector is written at the
      destination's cursor, and the merged region right after it because the rewind moves
      the source descriptor. On an error nothing is written. */
  method WriteExfat(source: Fd, dest: Fd) returns (outcome: Outcome<ExfatError>)
    requires source != dest && source.pos == 0 && dest.pos == 0
    modifies source`pos, dest
    ensures match ImageAsWritten(old(source.data), old(dest.data))
            case Failure(e) => outcome == Fail(e) && dest.data == old(dest.data)
            case Success(image) => outcome == Pass && dest.data == image
  {
    var region := ReadBootRegion(source, dest);
    if region.Failure? {
      return Fail(region.error);
    }
    var checksum := ComputeChecksum(region.value.bytes, AsWrittenSkips);
    var size := region.value.sectorSize;
    var packed := Repeat4(LittleEndian(checksum), (size + 3) / 4)[..size];
    ChecksumSectorIsRepetition(checksum, size);
    dest.Write(packed);
    source.Lseek(0);
    dest.Write(region.value.bytes);
    return Pass;
  }

  /** `writeexfat` with the standard exclusions and the destination rewound before the
      merged region is written back. */
  method WriteExfatCorrected(source: Fd, dest: Fd) returns (outcome: Outcome<ExfatError>)
    requires source != dest && source.pos == 0 && dest.pos == 0
    modifies source`pos, dest
    ensures match ImageCorrected(old(source.data), old(dest.data))
            case Failure(e) => outcome == Fail(e) && dest.data == old(dest.data)
            case Success(image) => outcome == Pass && dest.data == image
  {
    var region := ReadBootRegion(source, dest);
    if region.Failure? {
      return Fail(region.error);
    }
    var checksum := ComputeChecksum(region.value.bytes, StandardSkips);
    var size := region.value.sectorSize;
    var packed := Repeat4(LittleEndian(checksum), (size + 3) / 4)[..size];
    ChecksumSectorIsRepetition(checksum, size);
    dest.Write(packed);
    dest.Lseek(0);
    dest.Write(region.value.bytes);
    return Pass;
  }

  /** `getFS`: read the header through a fresh descriptor and classify it. */
  method GetFs(device: Fd, pbrRegex: string) returns (r: Result<Selection, FsError>)
    requires device.pos == 0
    modifies device`pos
    ensures r == DetectFs(device.data, pbrRegex)
  {
    var header := device.Read(HeaderLength);
    r := Classify(header, pbrRegex);
  }

  /** What the selected PBR writer leaves in the destination. */
  function PbrImage(writer: Writer, src: seq<Byte>, dst: seq<Byte>): Result<seq<Byte>, ExfatError>
  {
    match writer
    case Fat32Writer => Success(Fat32Image(src, dst))
    case HfsWriter => Success(HfsImage(src, dst))
    case ExfatWriter => ImageCorrected(src, dst)
  }

  /** Runs the writer a selection names. */
  method Dispatch(writer: Writer, source: Fd, dest: Fd) returns (outcome: Outcome<ExfatError>)
    requires source != dest && source.pos == 0 && dest.pos == 0
    modifies source`pos, dest
    ensures match PbrImage(writer, old(source.data), old(dest.data))
            case Failure(e) => outcome == Fail(e) && dest.data == old(dest.data)
            case Success(image) => outcome == Pass && dest.data == image
  {
    match writer
    case Fat32Writer =>
      WriteFat32(source, dest);
      outcome := Pass;
    case HfsWriter =>
      WriteHfs(source, dest);
      outcome := Pass;
    case ExfatWriter =>
      outcome := WriteExfatCorrected(source, dest);
  }

  /** Why a PBR installation stopped. */
  datatype PbrError = Unsupported(fs: FsError) | ExfatFailed(exfat: ExfatError)

  /** `writepbr`: classify the destination partition, then run the writer the
      classification selects. An unknown filesystem aborts before anything is written. */
  method WritePbr(source: Fd, dest: Fd, pbrRegex: string) returns (r: Result<Selection, PbrError>)
    requires source != dest && source.pos == 0 && dest.pos == 0
    modifies source`pos, dest
    ensures match DetectFs(old(dest.data), pbrRegex)
            case Failure(e) => r == Failure(Unsupported(e)) && dest.data == old(dest.data)
            case Success(selection) =>
              match PbrImage(selection.writer, old(source.data), old(dest.data))
              case Failure(e) => r == Failure(ExfatFailed(e)) && dest.data == old(dest.data)
              case Success(image) => r == Success(selection) && dest.data == image
  {
    var probe := new Fd.Open(dest.data);
    var detected := GetFs(probe, pbrRegex);
    if detected.Failure? {
      return Failure(Unsupported(detected.error));
    }
    var outcome := Dispatch(detected.value.writer, source, dest);
    if outcome.Fail? {
      return Failure(ExfatFailed(outcome.error));
    }
    r := Success(detected.value);
  }

  /** A successful detection only ever leads to the FAT32 or the HFS image: the exFAT
      writer is unreachable through `writepbr`. */
  lemma DetectedWriterImage(src: seq<Byte>, dst: seq<Byte>, pbrRegex: string)
    ensures match DetectFs(dst, pbrRegex)
            case Failure(_) => !Contains(Take(dst, HeaderLength), Fat32Marker)
                               && !Contains(Take(dst, HeaderLength), HfsMarker)
            case Success(selection) =>
              PbrImage(selection.writer, src, dst)
              == if Contains(Take(dst, HeaderLength), Fat32Marker) then Success(Fat32Image(src, dst))
                 else Success(HfsImage(src, dst))
  {
    DetectFsSpec(dst, pbrRegex);
  }
}
