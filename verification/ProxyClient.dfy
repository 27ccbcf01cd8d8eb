/** The client end of the relay: the life of one connection through the proxy. */
module ProxyClient {
  import opened Basics
  import opened Connection
  import opened Reports
  import Handshakes
  import HttpHead = HttpConnect
  import Socks = Socks5

  datatype Mode = Transparent | HttpConnect | Socks5Proxy

  /** `originHost` is the origin's text as the SOCKS5 encoder classifies it. */
  datatype Config = Config(mode: Mode, origin: string, originHost: Socks.Host, originPort: int,
                           credentials: Socks.Credentials) {
    /** What the mode's handshake makes of a new connection. */
    function Handshake(net: Net): (Result<Report, Failure>, Net) {
      match mode
      case Transparent => (Ok(NoReport), net)
      case HttpConnect =>
        var (r, after) := HttpHead.Establish(origin, originPort, net);
        (if r.Ok? then Ok(Report.Http(r.value)) else Err(r.error), after)
      case Socks5Proxy =>
        var (r, after) := Socks.Establish(credentials, originHost, originPort, net);
        (if r.Ok? then Ok(Report.Socks5(r.value)) else Err(r.error), after)
    }
  }

  /** What a failure says about the proxy's answer. */
  function ReportOf(failure: Failure): Report {
    if failure.Refused? then failure.report else NoReport
  }

  /** Sending a payload and reading as many bytes back. */
  function Roundtrip(net: Net, payload: Bytes): (Result<Bytes, Failure>, Net) {
    var (failed, sent) := Send(net, payload);
    if failed.Some? then (Err(failed.value), sent) else Read(sent, |payload|)
  }

  function Max(a: nat, b: nat): nat {
    if a < b then b else a
  }

  class ProxyClient {
    const config: Config
    var details: Report
    var sock: Socket?
    ghost var made: set<Socket>  // every connection this client ever made
    ghost var most: nat          // the most of them ever open at once

    constructor (config: Config)
      ensures this.config == config && sock == null && details == NoReport && made == {} && most == 0
    {
      this.config, sock, details, made, most := config, null, NoReport, {}, 0;
    }

    ghost predicate Valid()
      reads this
    {
      sock == null || sock in made
    }

    ghost function OpenSockets(): set<Socket>
      reads this`made, made`isOpen
    {
      set s | s in made && s.isOpen
    }

    /** `dial` is how the attempt to reach the proxy ends. The sockets left open
        are those of before, and the new one exactly on success; while the handshake
        runs, the new one is open beside them. */
    method Connect(dial: Result<Net, Failure>) returns (r: Option<Failure>)
      requires Valid()
      modifies this`sock, this`details, this`made, this`most
      ensures Valid() && fresh(made - old(made)) && old(made) <= made
      ensures dial.Err? ==> r == Some(dial.error) && sock == old(sock) && details == old(details)
      ensures dial.Ok? ==>
                match config.Handshake(dial.value)
                case (Ok(report), after) =>
                  r == None && details == report && sock != null && fresh(sock) && sock.isOpen && sock.Now() == after
                case (Err(failure), _) => r == Some(failure) && details == ReportOf(failure) && sock == null
      ensures OpenSockets() == old(OpenSockets()) + (if r.None? then {sock} else {})
      ensures most == if dial.Err? then old(most) else Max(old(most), |old(OpenSockets())| + 1)
    {
      if dial.Err? {
        return Some(dial.error);
      }
      r := ConnectOver(dial.value);
    }

    /** The part of connecting that has a socket to look after. */
    method ConnectOver(net: Net) returns (r: Option<Failure>)
      requires Valid()
      modifies this`sock, this`details, this`made, this`most
      ensures Valid() && fresh(made - old(made)) && old(made) <= made
      ensures match config.Handshake(net)
              case (Ok(report), after) =>
                r == None && details == report && sock != null && fresh(sock) && sock.isOpen && sock.Now() == after
              case (Err(failure), _) => r == Some(failure) && details == ReportOf(failure) && sock == null
      ensures OpenSockets() == old(OpenSockets()) + (if r.None? then {sock} else {})
      ensures most == Max(old(most), |old(OpenSockets())| + 1)
    {
      hide Config.Handshake, ReportOf, Max, OpenSockets;
      ghost var before := OpenSockets();
      var conn := Open(net);
      var report := Establish(conn);
      assert OpenSockets() == before + {conn};
      r := Settle(conn, report);
      AddedAndTaken(before, conn);
    }

    static lemma AddedAndTaken(before: set<Socket>, conn: Socket)
      requires conn !in before
      ensures before + {conn} - {conn} == before
    {
    }

    /** The end of the handshake: a failure closes the socket. */
    method Settle(conn: Socket, report: Result<Report, Failure>) returns (r: Option<Failure>)
      requires Valid() && sock == conn
      modifies this`sock, this`details, conn`isOpen
      ensures Valid() && conn.Now() == old(conn.Now())
      ensures match report
              case Ok(value) => r == None && details == value && sock == conn && conn.isOpen == old(conn.isOpen)
              case Err(failure) => r == Some(failure) && details == ReportOf(failure) && sock == null
      ensures OpenSockets() == old(OpenSockets()) - (if report.Ok? then {} else {conn})
    {
      hide ReportOf;
      match report {
        case Ok(value) =>
          details := value;
          r := None;
        case Err(failure) =>
          details := ReportOf(failure);
          Close();
          r := Some(failure);
      }
    }

    /** `create_connection` succeeded: the new socket takes the place of the old one. */
    method Open(net: Net) returns (conn: Socket)
      modifies this`sock, this`made, this`most
      ensures fresh(conn) && conn.isOpen && conn.Now() == net && sock == conn && made == old(made) + {conn}
      ensures conn !in old(OpenSockets())
      ensures OpenSockets() == old(OpenSockets()) + {conn}
      ensures most == Max(old(most), |old(OpenSockets())| + 1)
    {
      ghost var open := OpenSockets();
      conn := new Socket(net);
      sock, made := conn, made + {conn};
      assert OpenSockets() == open + {conn};
      hide ProxyClient.OpenSockets, Max;
      assert |open + {conn}| == |open| + 1;
      most := Max(most, |open + {conn}|);
    }

    method Establish(conn: Socket) returns (r: Result<Report, Failure>)
      modifies conn`inbound, conn`accepts, conn`slips, conn`log
      ensures (r, conn.Now()) == config.Handshake(old(conn.Now()))
    {
      hide HttpHead.Establish, Socks.Establish;
      match config.mode {
        case Transparent => r := Ok(NoReport);
        case HttpConnect =>
          var handshake := new Handshakes.HttpConnectHandshake();
          var response := handshake.Establish(conn, config.origin, config.originPort);
          r := if response.Ok? then Ok(Report.Http(response.value)) else Err(response.error);
        case Socks5Proxy =>
          var handshake := new Handshakes.Socks5Handshake(config.credentials);
          var result := handshake.Establish(conn, config.originHost, config.originPort);
          r := if result.Ok? then Ok(Report.Socks5(result.value)) else Err(result.error);
      }
    }

    method Close()
      requires Valid()
      modifies this`sock, (if sock == null then {} else {sock})`isOpen
      ensures Valid() && sock == null
      ensures old(sock) != null ==> !old(sock).isOpen && old(sock).Now() == old(sock.Now())
      ensures OpenSockets() == old(OpenSockets()) - (if old(sock) == null then {} else {old(sock)})
    {
      if sock != null {
        sock.Close();
        sock := null;
      }
    }

    // --- relay operations ------------------------------------------------------

    method SendPayload(payload: Bytes) returns (failure: Option<Failure>)
      modifies if sock == null then {} else {sock}
      ensures sock == null ==> failure == Some(NotConnected)
      ensures sock != null ==>
                (failure, sock.Now()) == Send(old(sock.Now()), payload) && sock.isOpen == old(sock.isOpen)
    {
      if sock == null {
        return Some(NotConnected);
      }
      failure := sock.SendAll(payload);
    }

    method RecvExact(count: nat) returns (r: Result<Bytes, Failure>)
      modifies if sock == null then {} else {sock}
      ensures sock == null ==> r == Err(NotConnected)
      ensures sock != null ==> (r, sock.Now()) == Read(old(sock.Now()), count) && sock.isOpen == old(sock.isOpen)
    {
      if sock == null {
        return Err(NotConnected);
      }
      r := sock.ReadExact(count);
    }

    method SendAndReceive(payload: Bytes) returns (r: Result<Bytes, Failure>)
      modifies if sock == null then {} else {sock}
      ensures sock == null ==> r == Err(NotConnected)
      ensures sock != null ==>
                (r, sock.Now()) == Roundtrip(old(sock.Now()), payload) && sock.isOpen == old(sock.isOpen)
    {
      var failure := SendPayload(payload);
      if failure.Some? {
        return Err(failure.value);
      }
      r := RecvExact(|payload|);
    }

    method HalfClose() returns (failure: Option<Failure>)
      modifies if sock == null then {} else {sock}
      ensures sock == null ==> failure == Some(NotConnected)
      ensures sock != null ==> failure == None || failure == Some(SocketError)
      ensures sock != null ==>
                && sock.Now() == (if failure.None? then old(sock.Now()).(accepts := 0, slips := 0) else old(sock.Now()))
                && sock.isOpen == old(sock.isOpen)
    {
      if sock == null {
        return Some(NotConnected);
      }
      failure := sock.ShutdownWrite();
    }

    /** Below the limit, end-of-stream gives everything that was sent, and nothing
        else does: a timeout is reported as the missing end-of-stream it is. At the
        limit the reading stops, at most one chunk late. */
    method ReadUntilEof(limit: nat) returns (r: Result<Bytes, Failure>)
      modifies if sock == null then {} else {sock}
      ensures sock == null ==> r == if limit == 0 then Ok([]) else Err(NotConnected)
      ensures sock != null && |old(sock.inbound)| < limit ==>
                r == (match sock.closing
                      case Closed => Ok(old(sock.inbound))
                      case Silent => Err(ProtocolViolation)
                      case Broken => Err(SocketError))
      ensures sock != null && limit <= |old(sock.inbound)| ==>
                && r.Ok? && limit <= |r.value| < limit + RECV_CHUNK
                && old(sock.inbound) == r.value + sock.inbound
      ensures sock != null ==> sock.isOpen == old(sock.isOpen)
    {
      var buffer: Bytes := [];
      while |buffer| < limit
        invariant sock != null ==> old(sock.inbound) == buffer + sock.inbound && sock.isOpen == old(sock.isOpen)
        invariant sock == null ==> buffer == []
        invariant |buffer| < limit + RECV_CHUNK
      {
        if sock == null {
          return Err(NotConnected);
        }
        var chunk := sock.Recv(RECV_CHUNK);
        match chunk {
          case Data(data) => buffer := buffer + data;
          case Eof =>
            assert buffer == old(sock.inbound);
            break;
          case Failed(failure) =>
            assert buffer == old(sock.inbound);
            return Err(if failure == TimedOut then ProtocolViolation else failure);
        }
      }
      r := Ok(buffer);
    }
  }

  /** Two successful `connect`s without a `close` between them: the first connection
      stays open, out of the client's reach. */
  method ConnectTwice(config: Config, first: Net, second: Net) returns (client: ProxyClient, lost: Socket)
    requires config.Handshake(first).0.Ok? && config.Handshake(second).0.Ok?
    ensures fresh(client) && client.sock != null && client.sock != lost && client.sock.isOpen && lost.isOpen
    ensures client.OpenSockets() == {lost, client.sock} && client.most == 2
  {
    hide Config.Handshake;
    client := new ProxyClient(config);
    assert client.OpenSockets() == {};
    var _ := client.Connect(Ok(first));
    lost := client.sock;
    var _ := client.Connect(Ok(second));
  }
}
