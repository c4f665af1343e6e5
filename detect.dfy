/** Filesystem detection as `getFS` performs it: a first-match substring search over the
    first 1536 bytes of the partition, which selects the PBR writer and the file-name
    pattern used to find the PBR boot code. The process-wide rebinding of `writepbr` and
    `DEFAULT_PBR_REGEX` becomes an explicit `Selection` value. */
module Detect {
  import opened Bytes
  import opened Wrappers

  /** `getFS` reads this many bytes of the partition. */
  const HeaderLength: nat := 1536

  /** ASCII "FAT32". */
  const Fat32Marker: seq<Byte> := [0x46, 0x41, 0x54, 0x33, 0x32]
  /** ASCII "HFS". */
  const HfsMarker: seq<Byte> := [0x48, 0x46, 0x53]

  /** The pattern `getFS` installs for HFS. */
  const HfsPbrRegex: string := "boot1h2?$"

  /** The kinds named in the module; `getFS` can only return the first two. */
  datatype FsKind = Fat32 | Hfs | ExFat

  /** The writers `writepbr` can be rebound to. */
  datatype Writer = Fat32Writer | HfsWriter | ExfatWriter

  /** What a detection decides: the kind it reports, the writer it selects and the PBR
      file-name pattern in force afterwards. */
  datatype Selection = Selection(kind: FsKind, writer: Writer, pbrRegex: string)

  /** The exception raised when neither marker is found. */
  datatype FsError = UnknownFilesystem

  /** The branches of `getFS` on an already-read header; `pbrRegex` is the pattern in force
      before the call. */
  function Classify(header: seq<Byte>, pbrRegex: string): Result<Selection, FsError>
  {
    if Occurs(Fat32Marker, header) then Success(Selection(Fat32, Fat32Writer, pbrRegex))
    else if Occurs(HfsMarker, header) then Success(Selection(Hfs, HfsWriter, HfsPbrRegex))
    else Failure(UnknownFilesystem)
  }

  /** `getFS` on a partition with contents `device`. */
  function DetectFs(device: seq<Byte>, pbrRegex: string): Result<Selection, FsError>
  {
    Classify(Take(device, HeaderLength), pbrRegex)
  }

  /** Detection in terms of where the markers stand in the first 1536 bytes: FAT32 wins
      whenever "FAT32" occurs, even if "HFS" does too; HFS needs "HFS" and no "FAT32";
      anything else is an error. ExFat is never reported. FAT32 selects the FAT32 writer and
      keeps the pattern; HFS selects the HFS writer and its own pattern. */
  lemma DetectFsSpec(device: seq<Byte>, pbrRegex: string)
    ensures var header := Take(device, HeaderLength);
            var r := DetectFs(device, pbrRegex);
            && (r.Success? && r.value.kind == Fat32 <==> Contains(header, Fat32Marker))
            && (r.Success? && r.value.kind == Hfs <==>
                  !Contains(header, Fat32Marker) && Contains(header, HfsMarker))
            && (r.Failure? <==> !Contains(header, Fat32Marker) && !Contains(header, HfsMarker))
            && (r.Success? ==> r.value.kind != ExFat && r.value.writer != ExfatWriter)
            && (r.Success? && r.value.kind == Fat32 ==>
                  r.value.writer == Fat32Writer && r.value.pbrRegex == pbrRegex)
            && (r.Success? && r.value.kind == Hfs ==>
                  r.value.writer == HfsWriter && r.value.pbrRegex == HfsPbrRegex)
  {
    var header := Take(device, HeaderLength);
    OccursIff(Fat32Marker, header);
    OccursIff(HfsMarker, header);
  }

  /** Bytes from offset 1536 on play no part in the decision. */
  lemma DetectIgnoresTail(device: seq<Byte>, tail: seq<Byte>, pbrRegex: string)
    requires |device| >= HeaderLength
    ensures DetectFs(device + tail, pbrRegex) == DetectFs(device, pbrRegex)
  {
    assert Take(device + tail, HeaderLength) == Take(device, HeaderLength);
  }

  /** An all-zero header holds neither marker, so detection fails. */
  lemma ZeroHeaderUnknown(pbrRegex: string)
    ensures DetectFs(Zeros(HeaderLength), pbrRegex) == Failure(UnknownFilesystem)
  {
    var header := Take(Zeros(HeaderLength), HeaderLength);
    OccursIff(Fat32Marker, header);
    OccursIff(HfsMarker, header);
    forall i: nat ensures !OccursAt(Fat32Marker, header, i) && !OccursAt(HfsMarker, header, i) {
      if i + 3 <= |header| {
        assert header[i] == 0;
        assert header[i..i + 3][0] == header[i];
        assert header[i..i + 3] != HfsMarker;
        if i + 5 <= |header| {
          assert header[i..i + 5][0] == header[i];
          assert header[i..i + 5] != Fat32Marker;
        }
      }
    }
  }
}
