/**
 * The buffer that a message is built in: a header of 16 bytes, and then whatever
 * is appended.  Its size is fixed when it is made.
 */
module MessageBuffer {
  import opened Serialization

  const HEADER: nat := 16
  const VERSION: byte := 1
  const PROTOCOL_HYPERSPACE: byte := 2

  /** The header that a message buffer starts with; the last field is the length of the whole message. */
  function EncodeHeader(protocol: byte, flags: byte, id: nat, gid: nat, total: nat): (h: bytes)
    ensures |h| == HEADER && h[0] == VERSION && h[1] == protocol && h[2] == flags && h[3] == HEADER
    ensures h[4..8] == EncodeInt(id, 4) && h[8..12] == EncodeInt(gid, 4) && h[12..16] == EncodeInt(total, 4)
  {
    [VERSION, protocol, flags, HEADER] + EncodeInt(id, 4) + EncodeInt(gid, 4) + EncodeInt(total, 4)
  }

  /**
   * A buffer of fixed size with the position of the next byte.  `appended` is
   * all that was ever appended, header included; `overrun` says that some of it
   * went behind the end of the buffer.
   */
  class CommBuf {
    const data: array<byte>
    var dataPtr: nat
    var overrun: bool
    ghost var appended: bytes

    ghost predicate Valid()
      reads this, data
    {
      && dataPtr == (if |appended| <= data.Length then |appended| else data.Length)
      && data[..dataPtr] == appended[..dataPtr]
      && (overrun <==> |appended| > data.Length)
    }

    /** The length of the header is added to the 32-bit length, and the header is written first. */
    constructor (protocol: byte, gid: nat, len: nat)
      ensures Valid() && fresh(data) && data.Length == (len + HEADER) % P32
      ensures appended == EncodeHeader(protocol, 0, 0, gid, data.Length)
    {
      data := new byte[(len + HEADER) % P32];
      dataPtr, overrun, appended := 0, false, [];
      new;
      var header := EncodeHeader(protocol, 0, 0, gid, data.Length);
      Append(header);
      assert [] + header == header;
    }

    method Append(s: bytes)
      requires Valid()
      modifies this, data
      ensures Valid() && appended == old(appended) + s
    {
      var i := 0;
      while i < |s|
        invariant i <= |s| && Valid() && appended == old(appended) + s[..i]
      {
        if dataPtr < data.Length {
          data[dataPtr] := s[i];
          dataPtr := dataPtr + 1;
        } else {
          overrun := true;
        }
        appended := appended + [s[i]];
        i := i + 1;
      }
      assert s[..i] == s;
    }
  }
}
