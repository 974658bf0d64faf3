/** Byte streams behind the system calls `read`, `write` and `lseek`, with every outcome the calls may have. */
module Streams {

  /** An open file or connection to read from. */
  class Source {
    const content: string
    var pos: nat
    ghost var failed: bool   // some read has returned -1

    ghost predicate Valid()
      reads this
    {
      pos <= |content|
    }

    constructor (content: string)
      ensures Valid() && this.content == content && pos == 0 && !failed
    {
      this.content := content;
      pos := 0;
      failed := false;
    }

    /** Any number of bytes up to `size` that are there, 0 only at the end, or -1. */
    method Read(buf: array<char>, off: nat, size: nat) returns (n: int)
      requires Valid() && off + size <= buf.Length && size > 0
      modifies this, buf
      ensures Valid() && -1 <= n <= size
      ensures failed == (old(failed) || n == -1)
      ensures pos == if n == -1 then old(pos) else old(pos) + n
      ensures n == 0 ==> pos == |content|
      ensures n > 0 ==> buf[off..off + n] == content[old(pos)..pos]
      ensures buf[..off] == old(buf[..off])
    {
      var room := if |content| - pos < size then |content| - pos else size;
      n :| -1 <= n <= room && (n == 0 ==> room == 0);
      if n == -1 {
        failed := true;
      } else {
        for i := 0 to n
          invariant pos == old(pos) && failed == old(failed)
          invariant buf[..off] == old(buf[..off])
          invariant buf[off..off + i] == content[pos..pos + i]
        {
          buf[off + i] := content[pos + i];
          assert content[pos..pos + i + 1] == content[pos..pos + i] + [content[pos + i]];
        }
        pos := pos + n;
      }
    }
  }

  /** An open file or connection to write to. */
  class Sink {
    var content: string
    ghost var failed: bool   // some write has returned -1
    ghost var short: bool    // some write has taken only a part of its data

    constructor ()
      ensures content == [] && !failed && !short
    {
      content := [];
      failed := false;
      short := false;
    }

    /** Any positive number of bytes from the front of `data`, or -1. */
    method Write(data: string) returns (n: int)
      requires data != []
      modifies this
      ensures n == -1 || 1 <= n <= |data|
      ensures failed == (old(failed) || n == -1) && short == (old(short) || 0 <= n < |data|)
      ensures n == -1 ==> content == old(content)
      ensures n != -1 ==> content == old(content) + data[..n]
    {
      n :| -1 <= n <= |data| && n != 0;
      if n == -1 {
        failed := true;
      } else {
        content := content + data[..n];
        short := short || n < |data|;
      }
    }
  }
}
