/** One connection of the echo server in tcp_server.c, with its two fixed buffers. */
module EchoServer {
  import opened Octets

  const BUFLEN: nat := 1024

  /** The handler that the next event will call. */
  datatype Callback = NoCallback | DoRecv | DoSend

  /** What sk_recv brings back. */
  datatype Received = RecvError | RecvNothing(closed: bool) | RecvData(bytes: seq<octet>)

  /** What sk_send reports. */
  datatype Sent = SendError | SendCount(n: nat)

  class Conn {
    var open: bool
    var cb: Callback
    const inbuf: array<octet>
    var inlen: nat
    const outbuf: array<octet>
    var outlen: nat
    /** All bytes received and all bytes sent on this connection. */
    ghost var received: seq<octet>
    ghost var sent: seq<octet>

    /** Bytes that still have to go out. */
    ghost function Unsent(): seq<octet>
      reads this, outbuf
      requires outlen <= outbuf.Length
    {
      if cb == DoSend then outbuf[..outlen] else []
    }

    ghost predicate Valid()
      reads this, inbuf, outbuf
    {
      && inbuf != outbuf && inbuf.Length == BUFLEN && outbuf.Length == BUFLEN
      && outlen <= BUFLEN && inlen == 0
      && (open ==> cb != NoCallback && sent + Unsent() == received)
      && (cb == DoSend ==> 1 <= outlen <= BUFLEN - 1)
      && (!open ==> cb == NoCallback && outlen == 0)
    }

    /** A connection just accepted. */
    constructor ()
      ensures Valid() && open && cb == DoRecv && received == [] && sent == []
      ensures fresh(inbuf) && fresh(outbuf)
    {
      open, cb, inlen, outlen := true, DoRecv, 0, 0;
      inbuf := new octet[BUFLEN](_ => 0);
      outbuf := new octet[BUFLEN](_ => 0);
      received, sent := [], [];
    }

    /** _tcp_fd_free. */
    method Free()
      requires Valid()
      modifies this, inbuf, outbuf
      ensures Valid() && !open && received == old(received) && sent == old(sent)
      ensures forall i :: 0 <= i < BUFLEN ==> inbuf[i] == 0 && outbuf[i] == 0
    {
      open, cb := false, NoCallback;
      forall i | 0 <= i < inbuf.Length {
        inbuf[i] := 0;
      }
      inlen := 0;
      forall i | 0 <= i < outbuf.Length {
        outbuf[i] := 0;
      }
      outlen := 0;
    }

    /** _do_tcp_recv; at most BUFLEN - 1 bytes are asked for. */
    method Recv(r: Received) returns (ret: int)
      requires Valid() && open && cb == DoRecv
      requires r.RecvData? ==> 1 <= |r.bytes| <= BUFLEN - inlen - 1
      modifies this, inbuf, outbuf
      ensures Valid() && sent == old(sent)
      ensures received == if r.RecvData? then old(received) + r.bytes else old(received)
      ensures ret == if r.RecvError? then -1 else 0
      ensures open <==> r.RecvData? || (r.RecvNothing? && !r.closed)
      ensures open ==> cb == if r.RecvData? then DoSend else DoRecv
    {
      if r.RecvError? {
        Free();
        return -1;
      }
      ret := 0;
      if r.RecvNothing? {
        if r.closed {
          Free();
        }
        return;
      }
      TakeIn(r.bytes);
      cb := DoSend;
      received := received + r.bytes;
    }

    /** The bytes go into the input buffer and all of it into the output buffer. */
    method TakeIn(bytes: seq<octet>)
      requires inbuf != outbuf && inbuf.Length == BUFLEN && outbuf.Length == BUFLEN
      requires inlen == 0 && 1 <= |bytes| <= BUFLEN - 1
      modifies this`inlen, this`outlen, inbuf, outbuf
      ensures inlen == 0 && outlen == |bytes| && outbuf[..outlen] == bytes
    {
      var n := |bytes|;
      forall i | 0 <= i < n {
        inbuf[inlen + i] := bytes[i];
      }
      inlen := inlen + n;
      forall i | 0 <= i < inlen {
        outbuf[i] := inbuf[i];
      }
      outlen := inlen;
      inlen := 0;
    }

    /** _do_tcp_send; what was not taken is moved to the front of the buffer. */
    method Send(s: Sent) returns (ret: int)
      requires Valid() && open && cb == DoSend
      requires s.SendCount? ==> s.n <= outlen
      modifies this, inbuf, outbuf
      ensures Valid() && received == old(received)
      ensures ret == if s.SendError? then -1 else 0
      ensures open <==> s.SendCount?
      ensures sent == if s.SendCount? then old(sent) + old(outbuf[..outlen])[..s.n] else old(sent)
      ensures open ==> cb == if s.n == old(outlen) then DoRecv else DoSend
    {
      if s.SendError? {
        Free();
        return -1;
      }
      ret := 0;
      var len, n := outlen, s.n;
      ghost var all := outbuf[..len];
      assert all == all[..n] + all[n..];
      sent := sent + all[..n];
      if n != len {
        MoveDown(n);
        return;
      }
      cb := DoRecv;
      assert all[n..] == [];
    }

    /** The memmove after a partial send. */
    method MoveDown(n: nat)
      requires outlen <= outbuf.Length && n <= outlen
      modifies this`outlen, outbuf
      ensures outlen == old(outlen) - n && outbuf[..outlen] == old(outbuf[..outlen])[n..]
    {
      var len := outlen - n;
      forall i | 0 <= i < len {
        outbuf[i] := outbuf[n + i];
      }
      outlen := len;
    }
  }
}
