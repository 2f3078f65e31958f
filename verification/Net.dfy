/** The contract of a TCP connection, which is all the pipelines know about the network. */
module Net {
  import opened Bytes

  class Connection {
    /** Whether the network lets no read come back empty while the peer has more to send. */
    const reliable: bool
    /** Everything the peer sends that has not been read yet. */
    var unread: bytes
    /** Everything written to the peer. */
    var output: bytes
    var open: bool
    /** Reads that came back empty although the peer had sent more: timeouts and resets. */
    ghost var stalls: nat

    constructor (wire: bytes, reliable: bool)
      ensures unread == wire && output == [] && open && stalls == 0 && this.reliable == reliable
    {
      this.reliable := reliable;
      unread, output, open, stalls := wire, [], true, 0;
    }

    /** At most `size` bytes, in order; how many is up to the network. An empty result is a
        timeout, or the end of the connection. */
    method Read(size: nat) returns (chunk: bytes)
      requires open
      modifies this`unread, this`open, this`stalls
      ensures |chunk| <= size
      ensures old(unread) == chunk + unread
      ensures chunk != [] ==> open
      ensures stalls == old(stalls) + if chunk == [] && unread != [] then 1 else 0
      ensures reliable && size > 0 && old(unread) != [] ==> chunk != []
    {
      var count: nat := *;
      if reliable && size > 0 && unread != [] && !(0 < count <= size && count <= |unread|) {
        count := 1;
      }
      if 0 < count <= size && count <= |unread| {
        chunk := unread[..count];
        unread := unread[count..];
      } else {
        chunk := [];
        stalls := stalls + if unread != [] then 1 else 0;
        var lost: bool := *;
        open := size > 0 && !lost;
      }
    }

    method Write(data: bytes) returns (sent: nat)
      requires open
      modifies this`output
      ensures output == old(output) + data && sent == |data|
    {
      output := output + data;
      sent := |data|;
    }

    method Close()
      modifies this`open
      ensures !open
    {
      open := false;
    }
  }
}
