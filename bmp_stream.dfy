/**
 * The io callbacks of an SflBmpReadContext, modelled after the stdio
 * adapter of sfl_bmp.h: a file held in memory and a cursor into it.
 */
module BmpStream {

  type Byte = b: int | 0 <= b < 256

  /** SflBmpIOWhence. */
  const SeekSet: int := 0
  const SeekCur: int := 1
  const SeekEnd: int := 2

  class Stream {
    const bytes: seq<Byte>
    var pos: int

    ghost predicate Valid()
      reads this
    {
      pos >= 0
    }

    constructor (file: seq<Byte>)
      ensures Valid() && bytes == file && pos == 0
    {
      bytes := file;
      pos := 0;
    }

    /**
     * read(ptr, n): fread(ptr, n, 1, f) == 1, which succeeds when `n` is
     * positive and all `n` bytes are there, and then moves the cursor past
     * them; on failure the cursor stays.
     */
    method Read(n: nat) returns (ok: bool, data: seq<Byte>)
      requires Valid()
      modifies this
      ensures Valid()
      ensures ok <==> 0 < n && old(pos) + n <= |bytes|
      ensures ok ==> data == bytes[old(pos)..old(pos) + n] && pos == old(pos) + n
      ensures !ok ==> data == [] && pos == old(pos)
    {
      if 0 < n && pos + n <= |bytes| {
        data := bytes[pos..pos + n];
        pos := pos + n;
        ok := true;
      } else {
        ok, data := false, [];
      }
    }

    /**
     * seek(offset, whence) returns 0 and moves the cursor, or fails with -1
     * for a position before the start or a whence that is none of SET, CUR
     * and END (fseek lets the cursor go past the end).
     */
    method Seek(offset: int, whence: int) returns (r: int)
      requires Valid()
      modifies this
      ensures Valid()
      ensures var base := if whence == SeekSet then 0 else if whence == SeekCur then old(pos) else |bytes|;
              (r == 0 <==> whence in {SeekSet, SeekCur, SeekEnd} && base + offset >= 0) &&
              (r == 0 ==> pos == base + offset) &&
              (r != 0 ==> pos == old(pos))
    {
      var base := if whence == SeekSet then 0 else if whence == SeekCur then pos else |bytes|;
      if whence in {SeekSet, SeekCur, SeekEnd} && base + offset >= 0 {
        pos := base + offset;
        r := 0;
      } else {
        r := -1;
      }
    }
  }
}
