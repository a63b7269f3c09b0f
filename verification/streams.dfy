/**
 * The accepted TCP connection as the request path sees it: the bytes the peer
 * sends, arriving in reads of at most 512 bytes (the size of the server's read
 * buffer), then either an orderly close or a read error; and an append-only
 * log of everything the server writes back.
 */
module Streams {
  import opened Wrappers
  import opened Bytes

  /** What one `read` into the 512-byte buffer delivers when it delivers data. */
  type Chunk = s: Bytes | 1 <= |s| <= 512 witness " "

  /** How the peer's data ends once every chunk has been read. */
  datatype End = Eof | Failed

  /** The outcome of one `read`: some bytes, `Ok(0)` (closed), or an I/O error. */
  datatype ReadResult = Data(bytes: Chunk) | Closed | Broken

  type U128 = n: int | 0 <= n < 0x1_0000_0000_0000_0000_0000_0000_0000_0000

  /** `std::net::IpAddr`. */
  datatype IpAddr = V4(a: Byte, b: Byte, c: Byte, d: Byte) | V6(bits: U128)

  /** `Ipv4Addr::UNSPECIFIED`, 0.0.0.0. */
  const UNSPECIFIED: IpAddr := V4(0 as char, 0 as char, 0 as char, 0 as char)

  class Stream {
    /** The chunks the peer has sent and the server has not read yet. */
    var incoming: seq<Chunk>
    const end: End
    /** `peer_addr()`: the peer's address, or None when the socket cannot report it. */
    const peer: Option<IpAddr>
    /** Everything written to the connection so far. */
    var written: Bytes

    constructor (incoming: seq<Chunk>, end: End, peer: Option<IpAddr>)
      ensures this.incoming == incoming && this.end == end && this.peer == peer
      ensures written == []
    {
      this.incoming := incoming;
      this.end := end;
      this.peer := peer;
      written := [];
    }

    /** `read(&mut [u8; 512])`: the next chunk, or how the data ended. */
    method Read() returns (r: ReadResult)
      modifies this`incoming
      ensures old(incoming) != [] ==> r == Data(old(incoming)[0]) && incoming == old(incoming)[1..]
      ensures old(incoming) == [] ==> incoming == [] && r == (if end == Eof then Closed else Broken)
    {
      if incoming != [] {
        r := Data(incoming[0]);
        incoming := incoming[1..];
      } else if end == Eof {
        r := Closed;
      } else {
        r := Broken;
      }
    }

    /** `write_all`, whose error the server always discards. */
    method Write(bytes: Bytes)
      modifies this`written
      ensures written == old(written) + bytes
    {
      written := written + bytes;
    }
  }
}
