/** The seekable binary file object that each reader owns: an immutable
    byte sequence and a cursor. */
module Streams {
  import opened Bytes

  class Stream {
    /** Everything the file holds. */
    const data: seq<byte>
    /** The file position that `seek` sets and `read` advances. */
    var pos: nat

    constructor (data: seq<byte>)
      ensures this.data == data && pos == 0
    {
      this.data := data;
      pos := 0;
    }

    /** `seek(offset)`: a negative position (OSError) or one that does not
        fit a 64-bit offset (ValueError) is refused and leaves the cursor;
        any other is accepted, even past the end. */
    method Seek(offset: int) returns (ok: bool)
      modifies this
      ensures ok <==> SeekAllowed(offset)
      ensures pos == if ok then offset else old(pos)
    {
      ok := SeekAllowed(offset);
      if ok {
        pos := offset;
      }
    }

    /** `read(n)`: a count below -1 is refused (ValueError) and leaves the
        position; otherwise returns what ReadAt describes and advances the
        position by the number of bytes returned. */
    method Read(n: int) returns (ok: bool, chunk: seq<byte>)
      modifies this
      ensures ok <==> ReadCountAllowed(n)
      ensures ok ==> chunk == ReadAt(data, old(pos), n) && pos == old(pos) + |chunk|
      ensures !ok ==> chunk == [] && pos == old(pos)
    {
      ok := ReadCountAllowed(n);
      if !ok {
        return false, [];
      }
      chunk := ReadAt(data, pos, n);
      pos := pos + |chunk|;
    }
  }
}
