/** The buffered file reader `warctest` drives: a read cursor over the bytes of the archive file. */
module Reader {
  import opened Bytes

  /** `BufReader<File>` seen through `read_exact` and `rewind`: the file's bytes and a position. */
  class ByteReader {
    /** The whole content of the file. */
    const data: seq<byte>
    /** Offset of the next byte to be read. */
    var pos: nat

    ghost predicate Valid()
      reads this
    {
      pos <= |data|
    }

    /** The bytes not read yet. */
    function Remaining(): (rest: seq<byte>)
      reads this
      requires Valid()
      ensures data == data[..pos] + rest
    {
      data[pos..]
    }

    /** Opening the file positions the reader at its first byte. */
    constructor (input: seq<byte>)
      ensures Valid()
      ensures data == input && pos == 0
    {
      data := input;
      pos := 0;
    }

    /** `read_exact`: fill `buf` with the next `buf.Length` bytes and advance past them, or fail
        when fewer remain, in which case the remaining bytes are consumed and `buf` is kept. */
    method ReadExact(buf: array<byte>) returns (ok: bool)
      requires Valid()
      modifies this`pos, buf
      ensures Valid()
      ensures ok <==> old(pos) + buf.Length <= |data|
      ensures ok ==> pos == old(pos) + buf.Length && buf[..] == data[old(pos)..pos]
      ensures !ok ==> pos == |data| && buf[..] == old(buf[..])
    {
      if pos + buf.Length > |data| {
        pos := |data|;
        return false;
      }
      forall i | 0 <= i < buf.Length {
        buf[i] := data[pos + i];
      }
      pos := pos + buf.Length;
      return true;
    }

    /** `rewind`: seek back to offset 0. */
    method Rewind()
      requires Valid()
      modifies this`pos
      ensures Valid()
      ensures pos == 0 && Remaining() == data
    {
      pos := 0;
    }
  }
}
