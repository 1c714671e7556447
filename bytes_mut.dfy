/** The growable byte buffer the codec reads from and writes to (`bytes::BytesMut`),
    reduced to its contents and the two operations the codec uses on it. */
module BytesBuf {
  import opened Base

  class BytesMut {
    var data: seq<byte>

    constructor (init: seq<byte>)
      ensures data == init
    {
      data := init;
    }

    /** Discards the first `n` bytes (`Buf::advance`, which panics past the end). */
    method Advance(n: nat)
      requires n <= |data|
      modifies this
      ensures data == old(data)[n..]
      ensures IsSuffix(data, old(data)) && |old(data)| - |data| == n
    {
      data := data[n..];
    }

    /** Appends `item` (`BytesMut::extend_from_slice`). */
    method ExtendFromSlice(item: seq<byte>)
      modifies this
      ensures data == old(data) + item
      ensures data[..|old(data)|] == old(data) && data[|old(data)|..] == item
    {
      data := data + item;
    }
  }
}
