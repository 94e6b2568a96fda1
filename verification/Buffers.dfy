/** `bytes.Buffer` as the target of the muxer and of the parsers: writing to it never fails. */
module Buffers {
  import opened Bytes

  class Buffer {
    var bytes: seq<byte>

    constructor ()
      ensures bytes == []
    {
      bytes := [];
    }

    method Write(p: seq<byte>)
      modifies this
      ensures bytes == old(bytes) + p
    {
      bytes := bytes + p;
    }

    method Reset()
      modifies this
      ensures bytes == []
    {
      bytes := [];
    }
  }
}
