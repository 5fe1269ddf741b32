/** Files as byte sequences with a position, behind operations that may fail (file_posix.c). */
module FileSystem {

  type Byte = bv8

  // The contents after writing `src` at offset `at`; a gap before `at` reads as zeros.
  function Overwrite(data: seq<Byte>, at: nat, src: seq<Byte>): (r: seq<Byte>)
    ensures src != [] ==> |r| == if at + |src| > |data| then at + |src| else |data|
  {
    if src == [] then data
    else
      var base := Resize(data, if at + |src| > |data| then at + |src| else |data|);
      base[..at] + src + base[at + |src|..]
  }

  // The contents after truncating or zero-extending a file to `size` bytes.
  function Resize(data: seq<Byte>, size: nat): (r: seq<Byte>)
    ensures |r| == size
  {
    if size <= |data| then data[..size] else data + seq(size - |data|, _ => 0)
  }

  /** An open file. `faults` counts the operations the operating system refused or cut short. */
  class FsFile {
    var data: seq<Byte>
    var pos: nat
    ghost var faults: nat

    constructor (contents: seq<Byte>)
      ensures data == contents && pos == 0 && faults == 0
    {
      data, pos, faults := contents, 0, 0;
    }

    // FS_SeekFile with FS_SEEK_SET
    method Seek(offset: nat) returns (ok: bool)
      modifies this`pos, this`faults
      ensures ok ==> pos == offset && faults == old(faults)
      ensures !ok ==> faults > old(faults)
    {
      if * {
        pos, ok := offset, true;
      } else {
        faults, ok := faults + 1, false;
      }
    }

    // FS_WriteFile: a short count means that only a prefix reached the file.
    method Write(src: seq<Byte>) returns (n: nat)
      modifies this
      ensures n <= |src| && data == Overwrite(old(data), old(pos), src[..n])
      ensures n == |src| ==> faults == old(faults)
      ensures n < |src| ==> faults > old(faults)
    {
      n := |src|;
      if * {
        n :| 0 <= n <= |src|;
      }
      faults := if n < |src| then faults + 1 else faults;
      data := Overwrite(data, pos, src[..n]);
      pos := pos + n;
    }

    // FS_ReadFile: fewer bytes than asked for come back at the end of the file or on a fault.
    method Read(max: nat) returns (dst: seq<Byte>)
      modifies this`pos, this`faults
      ensures |dst| <= max
      ensures old(pos) <= |data| ==> old(pos) + |dst| <= |data| && dst == data[old(pos)..old(pos) + |dst|]
      ensures old(pos) > |data| ==> dst == []
      ensures |dst| < max && old(pos) + max <= |data| ==> faults > old(faults)
      ensures |dst| == max || old(pos) + max > |data| ==> faults == old(faults)
    {
      var avail := if pos <= |data| then |data| - pos else 0;
      var n := if avail < max then avail else max;
      if * {
        n :| 0 <= n <= if avail < max then avail else max;
      }
      dst := if pos <= |data| then data[pos..pos + n] else [];
      faults := if n < max && pos + max <= |data| then faults + 1 else faults;
      pos := pos + n;
    }

    // FS_TruncateFile
    method Truncate(size: nat) returns (ok: bool)
      modifies this`data, this`faults
      ensures ok ==> data == Resize(old(data), size) && faults == old(faults)
      ensures !ok ==> data == old(data) && faults > old(faults)
    {
      if * {
        data, ok := Resize(data, size), true;
      } else {
        faults, ok := faults + 1, false;
      }
    }

    // FS_GetFileSize
    method Size() returns (n: nat)
      ensures n == |data|
    {
      n := |data|;
    }
  }
}
