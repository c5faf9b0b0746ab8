/**
 * A stand-in for the `java.io.RandomAccessFile` the reader is built on: an
 * open, read-only file whose bytes are `content`, with a file pointer.
 * `Read` returns at least one byte of the requested range or signals end of
 * file; how many bytes a read returns is left open, as the operating
 * system leaves it.
 */
module FileHandle {

  class RandomAccessFile {
    const content: seq<bv8>
    var pointer: nat
    var closed: bool

    constructor (content: seq<bv8>)
      ensures this.content == content && pointer == 0 && !closed
    {
      this.content := content;
      pointer, closed := 0, false;
    }

    /** `seek`: moves the file pointer; positions past the end are allowed. */
    method Seek(pos: nat)
      requires !closed
      modifies this
      ensures pointer == pos && !closed
    {
      pointer := pos;
    }

    /**
     * `read(b, off, len)`: copies `n`, between 1 and `len`, of the bytes at
     * the file pointer into `b[off..off + n]` and advances the pointer; or
     * returns -1, changing nothing, when the pointer is at or past the end.
     */
    method Read(b: array<bv8>, off: int, len: int) returns (n: int)
      requires !closed && 0 <= off && 1 <= len && off + len <= b.Length
      modifies this, b
      ensures !closed
      ensures n == -1 <==> old(pointer) >= |content|
      ensures n == -1 ==> pointer == old(pointer) && b[..] == old(b[..])
      ensures n != -1 ==>
        && 1 <= n <= len && old(pointer) + n <= |content|
        && pointer == old(pointer) + n
        && forall i :: 0 <= i < b.Length ==>
             b[i] == if off <= i < off + n then content[old(pointer) + i - off] else old(b[i])
    {
      if pointer >= |content| {
        return -1;
      }
      var available := if len <= |content| - pointer then len else |content| - pointer;
      n :| 1 <= n <= available;
      forall i | 0 <= i < n {
        b[off + i] := content[pointer + i];
      }
      pointer := pointer + n;
    }

    /** `close`: releases the file; closing twice is harmless. */
    method Close()
      modifies this
      ensures closed && pointer == old(pointer)
    {
      closed := true;
    }
  }
}
