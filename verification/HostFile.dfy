/** An open host file: its bytes, and the two positioned transfers the disk code makes. */
module HostFiles {
  import opened Bytes

  class HostFile {
    var data: seq<byte>

    constructor ()
      ensures data == []
    {
      data := [];
    }

    /** Reads up to `n` bytes at `pos` into `buf[at..]`; fewer arrive at the end of the file. */
    method Read(buf: array<byte>, at: nat, n: nat, pos: nat) returns (got: nat)
      requires at + n <= buf.Length
      modifies buf
      ensures got == |ReadAt(data, pos, n)|
      ensures buf[at..at + got] == ReadAt(data, pos, n)
      ensures forall k :: 0 <= k < buf.Length && !(at <= k < at + got) ==> buf[k] == old(buf[k])
    {
      var r := ReadAt(data, pos, n);
      got := |r|;
      forall k | 0 <= k < got {
        buf[at + k] := r[k];
      }
      assert buf[at..at + got] == r;
    }

    method Write(buf: seq<byte>, pos: nat)
      modifies this
      ensures data == WriteAt(old(data), pos, buf)
    {
      data := WriteAt(data, pos, buf);
    }
  }
}
