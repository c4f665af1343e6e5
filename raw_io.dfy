/** Raw, unbuffered file descriptors as the writers use them through `os.open`,
    `os.read`, `os.lseek` and `os.write`: a file's bytes and a cursor into them. */
module RawIo {
  import opened Bytes

  /** An open descriptor: the contents of the file it names and its byte offset. */
  class Fd {
    var data: seq<Byte>
    var pos: nat

    /** `os.open`: a new descriptor starts at offset 0. */
    constructor Open(contents: seq<Byte>)
      ensures data == contents && pos == 0
    {
      data := contents;
      pos := 0;
    }

    /** `os.read(fd, n)`: at most `n` bytes from the cursor on, fewer near the end of the
        file and none past it; the cursor advances by the number of bytes returned. */
    method Read(n: nat) returns (r: seq<Byte>)
      modifies this`pos
      ensures r == Slice(data, old(pos), old(pos) + n)
      ensures |r| == Max(0, Min(old(pos) + n, |data|) - Min(old(pos), |data|))
      ensures pos == old(pos) + |r|
    {
      r := Slice(data, pos, pos + n);
      pos := pos + |r|;
    }

    /** `os.lseek(fd, offset, os.SEEK_SET)`. */
    method Lseek(offset: nat)
      modifies this`pos
      ensures pos == offset
    {
      pos := offset;
    }

    /** `os.write(fd, b)` on a regular file: the whole buffer lands at the cursor, which
        moves past it. */
    method Write(b: seq<Byte>)
      modifies this
      ensures data == Overwrite(old(data), old(pos), b)
      ensures pos == old(pos) + |b|
    {
      data := Overwrite(data, pos, b);
      pos := pos + |b|;
    }
  }
}
