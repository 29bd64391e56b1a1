/** A stdio stream over a regular file whose reads and writes do not fail. */
module ByteFiles {
  import opened Bytes

  class ByteFile {
    var data: seq<byte>
    var pos: nat

    constructor (contents: seq<byte>)
      ensures data == contents && pos == 0
    {
      data, pos := contents, 0;
    }

    /** fread(buf, 1, count, file): a short count means end of file. */
    method Read(count: nat) returns (got: seq<byte>)
      requires pos <= |data|
      modifies this`pos
      ensures pos == old(pos) + |got| <= |data|
      ensures got == data[old(pos)..pos]
      ensures |got| == if old(pos) + count <= |data| then count else |data| - old(pos)
    {
      var end := if pos + count <= |data| then pos + count else |data|;
      got := data[pos..end];
      pos := end;
    }

    /** fwrite(bytes, 1, |bytes|, file) at the current position. */
    method Write(bytes: seq<byte>)
      requires pos <= |data|
      modifies this
      ensures data == Overlay(old(data), old(pos), bytes)
      ensures pos == old(pos) + |bytes|
      ensures old(pos) == |old(data)| ==> data == old(data) + bytes
    {
      data := Overlay(data, pos, bytes);
      pos := pos + |bytes|;
    }
  }
}
