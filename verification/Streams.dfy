/** A connection whose calls move the data in pieces of any size. */
module Streams {
  import opened Common

  /** A socket: the bytes under way, and how many of them each call of send or recv moves. A call that moves none has failed, or found the end. */
  class Socket<T> {
    var stream: seq<T>
    var calls: nat
    const cuts: nat -> nat

    constructor (cuts: nat -> nat)
      ensures stream == [] && calls == 0 && this.cuts == cuts
    {
      this.cuts := cuts;
      stream, calls := [], 0;
    }

    /** No call fails while there is something to move. */
    ghost predicate Alive() { forall k :: cuts(k) > 0 }

    method Send(buf: seq<T>) returns (r: nat)
      modifies this
      ensures r <= |buf| && stream == old(stream) + buf[..r]
      ensures Alive() && buf != [] ==> r > 0
    {
      r := if cuts(calls) < |buf| then cuts(calls) else |buf|;
      stream := stream + buf[..r];
      calls := calls + 1;
    }

    method Recv(max: nat) returns (chunk: seq<T>)
      modifies this
      ensures |chunk| <= max && old(stream) == chunk + stream
      ensures Alive() && max > 0 && old(stream) != [] ==> chunk != []
    {
      var r := if cuts(calls) < max then cuts(calls) else max;
      if r > |stream| {
        r := |stream|;
      }
      chunk := stream[..r];
      stream := stream[r..];
      calls := calls + 1;
    }
  }

  /** `write_all`, and `send_line_raw`, which is the same loop. */
  method WriteAll<T>(sock: Socket<T>, buf: seq<T>) returns (ok: bool)
    modifies sock
    ensures ok ==> sock.stream == old(sock.stream) + buf
    ensures sock.Alive() ==> ok
  {
    var sent := 0;
    while sent < |buf|
      invariant sent <= |buf| && sock.stream == old(sock.stream) + buf[..sent]
    {
      var r := sock.Send(buf[sent..]);
      if r == 0 {
        return false;
      }
      assert buf[..sent] + buf[sent..][..r] == buf[..sent + r];
      Regroup(old(sock.stream), buf[..sent], buf[sent..][..r]);
      sent := sent + r;
    }
    assert buf[..sent] == buf;
    ok := true;
  }
}
