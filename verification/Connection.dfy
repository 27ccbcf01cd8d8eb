/** What a proxy reported while a tunnel was being established. */
module Reports {
  import opened Basics

  /** The bound address of a reply; a name is decoded as ASCII with replacement. */
  datatype BoundHost = BoundIpv4(octets: Bytes) | BoundIpv6(octets: Bytes) | BoundName(text: seq<int>)

  datatype Reply = Reply(code: byte, host: BoundHost, port: nat)

  datatype Socks5Result = Socks5Result(selected: byte, reply: Reply)

  datatype Stage = MethodSelection | Userpass

  datatype Response = Response(status: int, reason: string) {
    /** Any 2xx response establishes the tunnel. */
    predicate TunnelEstablished() {
      200 <= status < 300
    }
  }

  /** `ProxyClient.details`: by mode, on success and on refusal. */
  datatype Report =
    | NoReport
    | Http(response: Response)
    | Socks5(result: Socks5Result)
    | Socks5Auth(selected: byte, stage: Stage)
}

/**
 The client's socket. What the peer will ever send is fixed by `inbound`, so a
 statement about every connection covers every peer, adaptive ones included.
 */
module Connection {
  import opened Basics
  import opened Reports

  /** What a read meets when the peer has no more bytes for us. */
  datatype Closing = Closed | Silent | Broken

  /** Why an operation on the proxy connection did not return. */
  datatype Failure =
    | PeerClosedEarly     // the peer closed in the middle of a message
    | TimedOut            // it neither sent nor closed in time
    | SocketError
    | ProtocolViolation   // its bytes break the protocol
    | ConfigurationError  // our own request cannot be built
    | Unencodable         // our own request has characters outside ASCII
    | PortOutOfRange
    | NotConnected        // the client has no connection
    | Refused(report: Report)  // it answered, and the answer is no

  /** A message that went out, one whose sending failed after these bytes of it, and
      one that was read. */
  datatype Io = Sent(data: Bytes) | Torn(data: Bytes) | Got(data: Bytes)

  /** `accepts` is how many more sends the connection survives, and `slips` how many
      bytes of the first failing one still go out; `log` is what crossed it, in order. */
  datatype Net = Net(inbound: Bytes, closing: Closing, accepts: nat, slips: nat, log: seq<Io>)

  function ReadFailure(closing: Closing): Failure {
    match closing
    case Closed => PeerClosedEarly
    case Silent => TimedOut
    case Broken => SocketError
  }

  /** An exact read of `n` bytes. */
  function Read(net: Net, n: nat): (Result<Bytes, Failure>, Net) {
    if n <= |net.inbound| then
      (Ok(net.inbound[..n]), net.(inbound := net.inbound[n..], log := net.log + [Got(net.inbound[..n])]))
    else (Err(ReadFailure(net.closing)), net.(inbound := []))
  }

  function Send(net: Net, data: Bytes): (Option<Failure>, Net) {
    if net.accepts == 0 then
      (Some(SocketError), net.(slips := 0, log := net.log + [Torn(Front(data, net.slips))]))
    else (None, net.(accepts := net.accepts - 1, log := net.log + [Sent(data)]))
  }

  /** A single `recv(n)` when at most `most` bytes have come in: a front of the bytes
      that are there, at least one of them, and nothing at the end of the stream. */
  function Receive(net: Net, n: nat, most: nat): (Result<Bytes, Failure>, Net) {
    if n == 0 then (Ok([]), net)
    else if net.inbound == [] then (if net.closing == Closed then Ok([]) else Err(ReadFailure(net.closing)), net)
    else
      var front := Front(Front(net.inbound, n), if most == 0 then 1 else most);
      (Ok(front), net.(inbound := net.inbound[|front|..]))
  }

  /** Enough has come in for all of `recv(n)`. */
  predicate Enough(most: nat, n: nat) {
    n <= most || n <= 1
  }

  lemma ReceiveTakes(net: Net, n: nat, most: nat)
    ensures var (r, after) := Receive(net, n, most);
            && after.accepts == net.accepts
            && (r.Ok? ==> |r.value| <= n && |after.inbound| == |net.inbound| - |r.value| && Enough(most, |r.value|))
  {
  }

  lemma ReceiveFront(net: Net, front: Bytes, rest: Bytes, most: nat)
    requires net.inbound == front + rest && Enough(most, |front|)
    ensures Receive(net, |front|, most) == (Ok(front), net.(inbound := rest))
  {
    if front != [] {
      assert net.inbound != [] && Front(net.inbound, |front|) == front;
      assert Front(front, if most == 0 then 1 else most) == front;
      assert net.inbound[|front|..] == rest;
    } else {
      assert net.inbound == rest;
    }
  }

  /** Every byte that went out, in order. */
  function SentBytes(log: seq<Io>): Bytes {
    if log == [] then []
    else
      var last := log[|log| - 1];
      SentBytes(log[..|log| - 1]) + if last.Got? then [] else last.data
  }

  lemma {:induction false} SentBytesOfBoth(a: seq<Io>, b: seq<Io>)
    ensures SentBytes(a + b) == SentBytes(a) + SentBytes(b)
    decreases |b|
  {
    if b == [] {
      assert a + b == a;
    } else {
      assert (a + b)[..|a + b| - 1] == a + b[..|b| - 1];
      SentBytesOfBoth(a, b[..|b| - 1]);
    }
  }

  /** Reading sends nothing. */
  lemma {:induction false} ReadsSendNothing(log: seq<Io>)
    requires forall i :: 0 <= i < |log| ==> log[i].Got?
    ensures SentBytes(log) == []
  {
    if log != [] { ReadsSendNothing(log[..|log| - 1]); }
  }

  /** The outcome of one recv call. */
  datatype Received = Data(data: Bytes) | Eof | Failed(failure: Failure)

  class Socket {
    var inbound: Bytes
    const closing: Closing
    var accepts: nat
    var slips: nat
    var log: seq<Io>
    var isOpen: bool

    constructor (net: Net)
      ensures Now() == net && isOpen
    {
      inbound, closing, accepts, slips, log := net.inbound, net.closing, net.accepts, net.slips, net.log;
      isOpen := true;
    }

    function Now(): Net
      reads this
    {
      Net(inbound, closing, accepts, slips, log)
    }

    /** `recv`: some of the bytes that are there, as many as the network pleases. */
    method Recv(max: nat) returns (r: Received)
      requires max > 0
      modifies this`inbound
      ensures old(inbound) == [] ==>
                inbound == [] && r == if closing == Closed then Eof else Failed(ReadFailure(closing))
      ensures old(inbound) != [] ==> r.Data? && 0 < |r.data| <= max && old(inbound) == r.data + inbound
    {
      if inbound == [] {
        r := if closing == Closed then Eof else Failed(ReadFailure(closing));
      } else {
        var k :| 0 < k <= max && k <= |inbound|;
        r := Data(inbound[..k]);
        inbound := inbound[k..];
      }
    }

    /** A single `recv(n)`, for any `n`. */
    method RecvUpTo(n: nat) returns (r: Result<Bytes, Failure>, ghost most: nat)
      modifies this`inbound
      ensures (r, Now()) == Receive(old(Now()), n, most)
    {
      most := 0;
      if n == 0 {
        return Ok([]), 0;
      }
      var chunk := Recv(n);
      match chunk {
        case Data(data) =>
          r, most := Ok(data), |data|;
          assert Front(Front(old(inbound), n), most) == data && old(inbound)[most..] == inbound;
        case Eof => r := Ok([]);
        case Failed(failure) => r := Err(failure);
      }
    }

    /** `_recv_exact`: reads until the count is complete, whatever sizes arrive. */
    method ReadExact(count: nat) returns (r: Result<Bytes, Failure>)
      modifies this`inbound, this`log
      ensures (r, Now()) == Read(old(Now()), count)
    {
      var buffer: Bytes := [];
      while |buffer| < count
        invariant |buffer| <= count && old(inbound) == buffer + inbound && log == old(log)
      {
        var chunk := Recv(count - |buffer|);
        match chunk {
          case Data(data) => buffer := buffer + data;
          case Eof => return Err(PeerClosedEarly);
          case Failed(failure) => return Err(failure);
        }
      }
      assert buffer == old(inbound)[..count];
      log := log + [Got(buffer)];
      r := Ok(buffer);
    }

    /** `sendall`: all of the bytes, or a failure after some of them. */
    method SendAll(data: Bytes) returns (failure: Option<Failure>)
      modifies this`accepts, this`slips, this`log
      ensures (failure, Now()) == Send(old(Now()), data)
    {
      if accepts == 0 {
        log := log + [Torn(Front(data, slips))];
        slips := 0;
        return Some(SocketError);
      }
      accepts := accepts - 1;
      log := log + [Sent(data)];
      failure := None;
    }

    /** `shutdown(SHUT_WR)`: nothing can be sent any more, reading goes on. It fails
        on a connection that the network has taken down. */
    method ShutdownWrite() returns (failure: Option<Failure>)
      modifies this`accepts, this`slips
      ensures failure == None || failure == Some(SocketError)
      ensures Now() == if failure.None? then old(Now()).(accepts := 0, slips := 0) else old(Now())
    {
      var up: bool := *;
      if !up {
        return Some(SocketError);
      }
      accepts, slips, failure := 0, 0, None;
    }

    method Close()
      modifies this`isOpen
      ensures !isOpen
    {
      isOpen := false;
    }
  }
}
