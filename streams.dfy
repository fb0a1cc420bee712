/** The caller-supplied `std::io::Write` and `std::io::Read` streams that the
    protocol writes to and reads from, each driven one bincode record at a
    time. */
module Streams {
  import opened Wrappers
  import opened Bincode

  /** An in-memory writer (a `Vec<u8>` passed as `&mut buffer`): every record
      written is appended to `bytes`. */
  class ByteSink {
    var bytes: seq<Byte>

    constructor ()
      ensures bytes == []
    {
      bytes := [];
    }

    /** `write_all`: appends `chunk`. */
    method Write(chunk: seq<Byte>)
      modifies this
      ensures bytes == old(bytes) + chunk
    {
      bytes := bytes + chunk;
    }
  }

  /** A reader over `data` (a `&[u8]`) with a cursor `pos` that each
      successful read advances past the bytes it took. */
  class ByteSource {
    const data: seq<Byte>
    var pos: nat

    ghost predicate Valid()
      reads this
    {
      pos <= |data|
    }

    /** The bytes not read yet. */
    function Remaining(): seq<Byte>
      reads this
      requires Valid()
    {
      data[pos..]
    }

    constructor (data: seq<Byte>)
      ensures Valid() && this.data == data && pos == 0
    {
      this.data := data;
      pos := 0;
    }

    /** Deserializes one value under `limit` from the cursor on. A failed
        read leaves the cursor where it was. */
    method Deserialize<X>(codec: Codec<X>, limit: U64) returns (r: Result<X, BincodeError>)
      requires Valid() && ReadsWithin(codec)
      modifies this
      ensures Valid()
      ensures var d := DecodeLimited(codec, old(Remaining()), limit);
        if d.Success?
        then && r == Success(d.value.value)
             && pos == old(pos) + d.value.used
             && Remaining() == old(Remaining())[d.value.used..]
        else r == Failure(d.error) && pos == old(pos)
    {
      var d := DecodeLimited(codec, data[pos..], limit);
      if d.Failure? {
        return Failure(d.error);
      }
      pos := pos + d.value.used;
      return Success(d.value.value);
    }
  }
}
