# DUETi boot-sector patching, modelled in Dafny

DUETi installs the DUET bootloader. Its core is a set of boot-sector writers.
Each writer merges a bootloader image ("source") into a disk or partition ("destination") without destroying the destination's own metadata:

- `writembr` replaces the 440 bytes of master-boot-record code and keeps the disk signature and partition table.
- `writefat32` (and the root copy's `writepbr`) replaces the jump instruction and the boot code of a FAT32 boot sector around the destination's BIOS parameter block (bytes 3 to 89).
- `writehfs` copies the first 1024 bytes (the HFS boot blocks).
- `writeexfat` merges the exFAT boot sector. It keeps destination bytes [0, 120) and [390, 512) and takes source bytes [120, 390). It reads the rest of the 11-sector boot region, computes the boot checksum and writes the checksum sector and the region back.
- `getFS` classifies a partition by searching its first 1536 bytes for "FAT32" and "HFS". It selects the PBR writer and the file-name pattern for the PBR boot code.

The model has two layers:

- **Pure functions** (`Merge`, `Checksum`, `Exfat`, `Detect`) state what each writer leaves in the destination, as a function of the two files' contents before the call. The lemmas beside them state the properties the design promises.
- **Imperative methods** (`Dueti` for `src/dueti.py`, `DuetiLegacy` for the root `dueti.py`) do what the Python does, step for step, on descriptors (`RawIo.Fd`). A descriptor is a file's bytes plus a cursor. `Read` returns short counts near the end of the file. `Write` overwrites at the cursor and extends the file. `Lseek` moves the cursor. Each writer method is proved to leave exactly the destination its pure function describes.

`getFS` rebinds process-global names. The model replaces that with an explicit `Detect.Selection` value (kind, writer, pattern). `Dueti.WritePbr` runs the detection on the destination and then dispatches on the selected writer.

Bytes are `bv8`. Python's clamped slicing is `Bytes.Slice`/`Take`/`Drop`. Python's `in` on bytes is `Bytes.Occurs`, proved equal to a reference definition (`Bytes.Contains`). The checksum is a 32-bit value (`bv32`).

## Model

| member | source | states |
|---|---|---|
| Bytes.Slice | src/dueti.py:121-122 | Python slicing clamps both bounds to the length. The result has length max(0, min(j,len(s)) − min(i,len(s))) and holds s[i+k] at position k |
| Bytes.Overwrite | src/dueti.py:124-125 | Writing at an offset changes bytes [pos, pos+len(b)) to b and keeps every other byte. The file grows to pos+len(b) when the write runs past its end, and any gap reads back as zeros |
| Bytes.OccursIff | src/dueti.py:242-246 | The front-to-back scan used for `in` finds a marker exactly when it stands at some offset of the header (both directions) |
| RawIo.Fd.Open | src/dueti.py:119-120 | A freshly opened descriptor holds the file's contents at offset 0 |
| RawIo.Fd.Read | src/dueti.py:121-122 | `os.read` returns the clamped slice from the cursor and advances the cursor by the number of bytes returned |
| RawIo.Fd.Lseek | src/dueti.py:124 | `os.lseek` with SEEK_SET puts the cursor at the offset |
| RawIo.Fd.Write | src/dueti.py:125 | `os.write` overwrites at the cursor (as `Overwrite`) and moves the cursor past the written bytes |
| Merge.MbrKeepsPartitionTable | src/dueti.py:121-125 | With ≥440 source bytes and ≥512 destination bytes, the first 440 bytes become the source's. Everything from 440 on (signature, partition table, 0x55AA, the rest of the disk) is unchanged, and the length is unchanged |
| Merge.MbrShortSourceShifts | src/dueti.py:121-125 | A source shorter than 440 bytes shifts destination bytes [440,512) down to offset len(src). Only bytes from len(src)+72 on keep their place |
| Merge.Fat32BufferLength | src/dueti.py:143-146 | The buffer's length is min(3,len(src)) + max(0, min(90,len(dst)) − 3) + max(0, min(512,len(src)) − 90). It is 512 exactly when len(src) ≥ 512 and len(dst) ≥ 90 (both directions) |
| Merge.Fat32KeepsBpb | src/dueti.py:143-149 | With full sectors, the result is src[0:3] + dst[3:90] + src[90:512] + dst[512:], so the BPB bytes [3,90) are the destination's own and nothing from 512 on changes |
| Merge.Fat32IgnoresSourceBpb | src/dueti.py:143-146 | Source bytes [3,90) never reach the destination. Sources that differ only there give the same result |
| Merge.HfsCopiesBootBlocks | src/dueti.py:160-163 | The first k = min(1024,len(src)) bytes become the source's, the rest of the destination is untouched, and the length is max(len(dst), k) |
| Merge.HfsIgnoresDestBootBlocks | src/dueti.py:160-163 | No destination byte below k is read. Destinations that agree from k on give the same result |
| Checksum.Step | src/dueti.py:189-190 | One step of the fold is a rotate right by one bit and a wrapping 32-bit add of the byte |
| Checksum.StepMatchesPython | src/dueti.py:189-190 | Python's step evaluated without overflow (on 64 bits) and then masked to 32 bits equals `Step` on every accumulator and byte |
| Checksum.StepKeepsAccumulator | src/dueti.py:189 | Two accumulators that give the same result on the same byte are equal: a step loses no information |
| Checksum.StepSeesByte | src/dueti.py:189 | On the same accumulator, different bytes give different results |
| Checksum.ComputeChecksum | src/dueti.py:183-190 | The loop over the region returns the fold of every byte whose index is not excluded, as `BootChecksum` defines it |
| Checksum.PrefixIgnoresSkipped | src/dueti.py:184-190 | After any number of steps, the accumulator does not depend on the bytes at excluded indices |
| Checksum.ChecksumIgnoresSkipped | src/dueti.py:184-190 | Regions that agree everywhere except at excluded indices have the same checksum |
| Checksum.StandardChecksumIgnoresFlags | src/dueti.py:185-187 | With offsets 106, 107 and 112 excluded, as the case line intends, VolumeFlags and PercentInUse can change without changing the checksum |
| Checksum.AsWrittenChecksumSeesEveryByte | src/dueti.py:184-190 | As written, any two regions of the same length that differ at exactly one index have different checksums, whatever the index (106, 107 and 112 included) |
| Checksum.AsWrittenChecksumSeesVolumeFlags | src/dueti.py:186 | The case line as written excludes nothing. Two regions that differ only at offset 106 fold to 0 and to 1, while the standard fold gives both the same value |
| Checksum.LittleEndian | src/dueti.py:192 | `struct.pack("<L", c)` yields 4 bytes that read back little-endian as c |
| Checksum.Repeat4 | src/dueti.py:192 | Repeating a 4-byte pattern n times gives 4·n bytes, with byte i equal to pattern[i mod 4] |
| Checksum.ChecksumSectorIsRepetition | src/dueti.py:191-192 | The packed pattern repeated ⌈S/4⌉ times covers the sector, and cut to S bytes it is the checksum sector |
| Checksum.StoredSectorGroups | src/dueti.py:191-194 | Once a checksum sector is stored at an offset, every aligned 4-byte group of it reads back as the checksum |
| Exfat.MergedSectorLayout | src/dueti.py:177-178 | With full sectors, the merged sector is dst[0:120] + src[120:390] + dst[390:512] |
| Exfat.SectorShiftFromDestination | src/dueti.py:178-181 | Whenever the destination holds byte 108, the merged sector has a byte 108 and it is the destination's, not the source's (a destination of 108 bytes or fewer lets source bytes slide down to offset 108) |
| Exfat.RegionLayout | src/dueti.py:177-182 | For well-sized files, the checksummed region is the merged sector followed by destination bytes [512, 11·S) with S = 2^dst[108]. The destination cursor ends at 11·S |
| Exfat.SmallSectorsFail | src/dueti.py:181-182 | A shift below 6 (sectors under 64 bytes) makes the read count negative, so the writer fails before writing anything |
| Exfat.AsWrittenLayout | src/dueti.py:177-196 | As written, the destination keeps [0, 11·S) unchanged. It holds the checksum sector at [11·S, 12·S) and the merged region at [12·S, 23·S). Everything from 23·S on is unchanged, and the file grows to at least 23·S |
| Exfat.AsWrittenKeepsOldBootSector | src/dueti.py:194-196 | As written, whenever the new boot code differs from the old, the destination's sector 0 stays the old one and not the merged sector |
| Exfat.CorrectedLayout | src/dueti.py:177-196 | With the rewind applied to the destination, the merged region lands at [0, 11·S), the checksum sector at [11·S, 12·S), and everything from 12·S on is unchanged |
| Exfat.CorrectedChecksumReproduces | src/dueti.py:183-196 | With the correction, folding the boot region now on disk reproduces the checksum sector written after it, and every aligned group reads back as that checksum |
| Exfat.StoredRegionConsistent | src/dueti.py:191-196 | A file holding a boot region at 0 and its standard checksum sector right after it is self-consistent |
| Detect.DetectFsSpec | src/dueti.py:239-256 | FAT32 is reported iff "FAT32" occurs in the first 1536 bytes. HFS is reported iff "HFS" occurs and "FAT32" does not. It fails iff neither occurs. exFAT is never reported. FAT32 selects `writefat32` and keeps the pattern; HFS selects `writehfs` and "boot1h2?$" |
| Detect.DetectIgnoresTail | src/dueti.py:240 | Bytes from offset 1536 on play no part in the decision |
| Detect.ZeroHeaderUnknown | src/dueti.py:242-251 | An all-zero header is an unknown filesystem |
| Dueti.WriteMbr | src/dueti.py:114-129 | The descriptor-level `writembr` leaves the destination equal to `MbrImage` of the two files |
| Dueti.WriteFat32 | src/dueti.py:135-153 | The descriptor-level `writefat32` leaves the destination equal to `Fat32Image` |
| Dueti.WriteHfs | src/dueti.py:155-167 | The descriptor-level `writehfs` leaves the destination equal to `HfsImage` |
| Dueti.ReadBootRegion | src/dueti.py:177-182 | Reading and merging the region gives exactly `ReadRegion`, including both error cases. The destination cursor ends after the region |
| Dueti.WriteExfat | src/dueti.py:169-200 | As written, `writeexfat` either fails with the destination unchanged or leaves it equal to `ImageAsWritten` |
| Dueti.WriteExfatCorrected | src/dueti.py:169-200 | The corrected writer either fails with the destination unchanged or leaves it equal to `ImageCorrected` |
| Dueti.GetFs | src/dueti.py:239-251 | Reading 1536 bytes through a fresh descriptor and classifying them gives `DetectFs` of the device |
| Dueti.Dispatch | src/dueti.py:244-254 | Running the selected writer leaves the destination that writer's image (`ImageCorrected` for the exFAT case), or fails with it unchanged |
| Dueti.WritePbr | src/dueti.py:131-133 | Detect, then write. An unknown filesystem aborts with the destination unchanged; otherwise the destination becomes the selected writer's image |
| Dueti.DetectedWriterImage | src/dueti.py:242-256 | A PBR write through detection only ever produces the FAT32 image (when "FAT32" is present) or the HFS image |
| DuetiLegacy.WriteMbr | dueti.py:92-106 | The root copy's `writembr` gives `MbrImage`. With full sizes, the result is src[0:440] + dst[440:] |
| DuetiLegacy.WritePbr | dueti.py:108-124 | The root copy's `writepbr` gives `Fat32Image`. With full sectors, the result is src[0:3] + dst[3:90] + src[90:512] + dst[512:] |

## Left out

- Downloading, archive extraction, `copy`, argument parsing and `main` are outside the boot-sector core.
- `os.fsync`, `os.close`, logging and `O_BINARY` have no effect on file contents.
- Opening errors (missing files, permissions) are left out. Each writer receives two open descriptors at offset 0.
- Source and destination naming the same file is left out. The writers require two distinct descriptors, so aliasing between them is not modelled.
- RawIo.Fd.Write: a short write by `os.write` is not modelled; the whole buffer is written.
- RawIo.Fd.Read: an `OverflowError` for counts beyond the C `ssize_t` range is not modelled, nor memory exhaustion. For a shift byte of 60 or more the model reads to the end of the file where Python raises.
- Dueti.WritePbr: the stub at src/dueti.py:131-133 calls `getFS()` with no argument and then calls itself. The model replaces it with detection on the destination followed by explicit dispatch, which is what src/cli.py:99-121 intends.
- Detect.Classify: the module-global rebinding of `writepbr` and `DEFAULT_PBR_REGEX` becomes a returned `Selection`. The exFAT branch after the unconditional `raise` (src/dueti.py:252-256) is dead, so `Dispatch`'s exFAT case is unreachable through detection.
- Dueti.Dispatch: the exFAT case runs the corrected writer (`WriteExfatCorrected`, result `ImageCorrected`), not `writeexfat` as written (`ImageAsWritten`), which is what `writepbr=writeexfat` at src/dueti.py:254 would run. The case is unreachable through detection. The as-written writer is modelled by `Dueti.WriteExfat`.
- Merge.Fat32BufferLength: the buffer is a full 512 bytes exactly when len(src) ≥ 512 and len(dst) ≥ 90. The destination only contributes bytes [3,90), so it need not hold a full sector.

## Findings

| source | as written | input that shows it | evidently intended | confidence | as-written member | corrected member |
|---|---|---|---|---|---|---|
| src/dueti.py:186 | `case 106,107,112:` is a sequence pattern, which never matches an integer index, so every byte enters the checksum | a boot region whose only change is the VolumeFlags byte at 106: the checksum changes (0 versus 1 on a 107-byte all-zero region) | skip offsets 106, 107 and 112, as the exFAT boot checksum requires (an or-pattern over 106, 107 and 112) | high, not executed | Checksum.AsWrittenChecksumSeesEveryByte | Checksum.StandardChecksumIgnoresFlags |
| src/dueti.py:195 | `os.lseek(source, 0, ...)` rewinds the source, so the merged region is written at the destination's cursor, right after the checksum sector at 12·S | any well-sized exFAT source and destination whose bytes [120,390) differ: sector 0 of the destination keeps its old boot code | rewind the destination, so the merged region replaces [0, 11·S) in front of its checksum sector | high, not executed | Exfat.AsWrittenKeepsOldBootSector | Exfat.CorrectedChecksumReproduces |
