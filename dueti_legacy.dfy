/** The older root copy `dueti.py`: an MBR writer that is line for line the one in
    `src/dueti.py`, and a PBR writer for FAT32 only, with no detection, whose body is that
    of `writefat32`. */
module DuetiLegacy {
  import opened Bytes
  import opened RawIo
  import opened Merge
  import Dueti

  /** `writembr`: source bytes [0, 440) followed by the destination's bytes [440, 512),
      all read before the destination is rewound and written. */
  method WriteMbr(source: Fd, dest: Fd)
    requires source != dest && source.pos == 0 && dest.pos == 0
    modifies source`pos, dest
    ensures dest.data == MbrImage(old(source.data), old(dest.data))
    ensures |old(source.data)| >= MbrCodeLength && |old(dest.data)| >= SectorLength ==>
              dest.data == old(source.data)[..MbrCodeLength] + old(dest.data)[MbrCodeLength..]
  {
    ghost var src, dst := source.data, dest.data;
    Dueti.WriteMbr(source, dest);
    if |src| >= MbrCodeLength && |dst| >= SectorLength {
      MbrKeepsPartitionTable(src, dst);
      assert dest.data == dest.data[..MbrCodeLength] + dest.data[MbrCodeLength..];
    }
  }

  /** `writepbr`: the FAT32 merge, source jump and boot code around the destination's BPB. */
  method WritePbr(source: Fd, dest: Fd)
    requires source != dest && source.pos == 0 && dest.pos == 0
    modifies source`pos, dest
    ensures dest.data == Fat32Image(old(source.data), old(dest.data))
    ensures |old(source.data)| >= SectorLength && |old(dest.data)| >= SectorLength ==>
              dest.data == old(source.data)[..BpbStart] + old(dest.data)[BpbStart..BpbEnd]
                           + old(source.data)[BpbEnd..SectorLength] + old(dest.data)[SectorLength..]
  {
    ghost var src, dst := source.data, dest.data;
    Dueti.WriteFat32(source, dest);
    if |src| >= SectorLength && |dst| >= SectorLength {
      Fat32KeepsBpb(src, dst);
    }
  }
}
