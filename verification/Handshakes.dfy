/**
 The handshakes as they run, step by step, over a socket. Each one is proved to do
 exactly what its description as a function of the connection says.
 */
module Handshakes {
  import opened Basics
  import opened Connection
  import opened Reports
  import Http = HttpConnect
  import Socks = Socks5

  // --- readers -------------------------------------------------------------------

  /** `read_socks5_reply`. */
  method ReadSocks5Reply(sock: Socket) returns (r: Result<Reply, Failure>)
    modifies sock`inbound, sock`accepts, sock`slips, sock`log
    ensures (r, sock.Now()) == Socks.ReadReply(old(sock.Now()))
  {
    var header := sock.ReadExact(4);
    if header.Err? {
      return Err(header.error);
    }
    if header.value[0] != Socks.VERSION {
      return Err(ProtocolViolation);
    }
    var host: BoundHost;
    if header.value[3] == Socks.ATYP_IPV4 {
      var raw := sock.ReadExact(4);
      if raw.Err? { return Err(raw.error); }
      host := BoundIpv4(raw.value);
    } else if header.value[3] == Socks.ATYP_IPV6 {
      var raw := sock.ReadExact(16);
      if raw.Err? { return Err(raw.error); }
      host := BoundIpv6(raw.value);
    } else if header.value[3] == Socks.ATYP_DOMAINNAME {
      var length := sock.ReadExact(1);
      if length.Err? { return Err(length.error); }
      var raw := sock.ReadExact(length.value[0]);
      if raw.Err? { return Err(raw.error); }
      host := BoundName(Socks.AsciiOrReplacement(raw.value));
    } else {
      return Err(ProtocolViolation);
    }
    var port := sock.ReadExact(2);
    if port.Err? { return Err(port.error); }
    r := Ok(Reply(header.value[1], host, Socks.PortOf(port.value)));
  }

  lemma LateTerminator(s: Bytes, k: nat)
    requires k <= |s| && Http.Search(s[..k], Http.HEADER_TERMINATOR, 0).None?
    ensures var r := Http.Search(s, Http.HEADER_TERMINATOR, 0); r.Some? ==> r.value + 4 > k
  {
    forall j: nat | j + 4 <= k ensures !Http.At(s, Http.HEADER_TERMINATOR, j) {
      assert !Http.At(s[..k], Http.HEADER_TERMINATOR, j);
      assert s[..k][j..j + 4] == s[j..j + 4];
    }
  }

  /** Extending a buffer without a terminator by the byte that completes one. */
  lemma NoneSoFar(s: Bytes, k: nat)
    requires k < |s| && Http.Search(s[..k], Http.HEADER_TERMINATOR, 0).None?
    requires Http.Search(s[..k + 1], Http.HEADER_TERMINATOR, 0).Some?
    ensures Http.Search(s, Http.HEADER_TERMINATOR, 0) == Some(k - 3)
  {
    hide Http.Search;
    var front, back := s[..k + 1], s[k + 1..];
    assert front[..k] == s[..k];
    LateTerminator(front, k);
    Http.SearchInFront(front, Http.HEADER_TERMINATOR, back);
    assert front + back == s;
  }

  /** A front of the stream that holds no terminator, or one that its last byte
      completes. */
  ghost predicate Scanned(all: Bytes, buffer: Bytes) {
    && buffer <= all
    && (buffer == [] || Http.Search(buffer[..|buffer| - 1], Http.HEADER_TERMINATOR, 0).None?)
  }

  lemma ScanStarts(all: Bytes)
    ensures Scanned(all, [])
  {
  }

  lemma ScanGoesOn(all: Bytes, buffer: Bytes, next: Bytes)
    requires Scanned(all, buffer) && Http.Search(buffer, Http.HEADER_TERMINATOR, 0).None?
    requires |buffer| < |all| && next == [all[|buffer|]]
    ensures Scanned(all, buffer + next)
  {
    hide Http.Search;
    FrontGrows(all, buffer, next);
  }

  lemma FrontGrows(all: Bytes, front: Bytes, next: Bytes)
    requires front <= all && |front| < |all| && next == [all[|front|]]
    ensures front + next <= all && (front + next)[..|front + next| - 1] == front
  {
    assert all[..|front| + 1] == front + next;
  }

  lemma ScanFinds(all: Bytes, buffer: Bytes)
    requires Scanned(all, buffer) && Http.Search(buffer, Http.HEADER_TERMINATOR, 0).Some?
    ensures 4 <= |buffer| <= |all| && buffer == all[..|buffer|]
    ensures Http.Search(all, Http.HEADER_TERMINATOR, 0) == Some(|buffer| - 4)
  {
    var k := |buffer| - 1;
    assert buffer != [];
    assert all[..k + 1] == buffer && all[..k] == buffer[..k];
    hide Scanned, Http.Search;
    NoneSoFar(all, k);
  }

  lemma ScanMisses(all: Bytes, buffer: Bytes)
    requires Scanned(all, buffer) && |buffer| == |all|
    ensures buffer == all
  {
  }

  /** The three ways the reading of a header block ends. */
  lemma HeadFound(net: Net, buffer: Bytes)
    requires Scanned(net.inbound, buffer) && |buffer| <= Http.HEAD_LIMIT
    requires Http.Search(buffer, Http.HEADER_TERMINATOR, 0).Some?
    ensures |buffer| <= |net.inbound| && Http.ReadHead(net) == (Ok(buffer), Http.Skip(net, |buffer|))
  {
    hide Http.Search, Http.Skip, Scanned;
    ScanFinds(net.inbound, buffer);
  }

  lemma HeadTooLong(net: Net, buffer: Bytes)
    requires Scanned(net.inbound, buffer) && |buffer| == Http.HEAD_LIMIT + 1
    ensures |buffer| <= |net.inbound| && Http.ReadHead(net) == (Err(ProtocolViolation), Http.Skip(net, |buffer|))
  {
    assert net.inbound[..Http.HEAD_LIMIT] == buffer[..Http.HEAD_LIMIT];
    hide Http.Search, Http.Skip;
    LateTerminator(net.inbound, Http.HEAD_LIMIT);
  }

  lemma HeadMissing(net: Net, buffer: Bytes)
    requires Scanned(net.inbound, buffer) && |buffer| == |net.inbound| <= Http.HEAD_LIMIT
    requires Http.Search(buffer, Http.HEADER_TERMINATOR, 0).None?
    ensures Http.ReadHead(net) == (Err(ReadFailure(net.closing)), Http.Skip(net, |buffer|))
  {
    ScanMisses(net.inbound, buffer);
    hide Http.Search, Http.Skip;
  }

  /** One byte further, or the end of the stream. */
  method ReadOneMore(sock: Socket, ghost start: Net, ghost k: nat) returns (chunk: Result<Bytes, Failure>)
    requires k <= |start.inbound| && sock.Now() == Http.Skip(start, k)
    modifies sock`inbound, sock`accepts, sock`slips, sock`log
    ensures if k < |start.inbound| then
              sock.Now() == Http.Skip(start, k + 1) && chunk == Ok([start.inbound[k]])
            else sock.Now() == Http.Skip(start, k) && chunk == Err(ReadFailure(start.closing))
  {
    if k < |start.inbound| {
      SkipOneMore(start, k);
    } else {
      ReadAtEnd(sock.Now());
    }
    hide *;
    chunk := sock.ReadExact(1);
  }

  /** `read_http_response_head`: one byte at a time, so nothing behind the header
      block is touched. */
  method ReadHttpHead(sock: Socket) returns (r: Result<Bytes, Failure>)
    modifies sock`inbound, sock`accepts, sock`slips, sock`log
    ensures (r, sock.Now()) == Http.ReadHead(old(sock.Now()))
  {
    ghost var start := sock.Now();
    assert Http.Skip(start, 0) == start;
    hide *;
    var buffer: Bytes := [];
    ScanStarts(start.inbound);
    while Http.Search(buffer, Http.HEADER_TERMINATOR, 0).None?
      invariant |buffer| <= Http.HEAD_LIMIT && |buffer| <= |start.inbound| && Scanned(start.inbound, buffer)
      invariant sock.Now() == Http.Skip(start, |buffer|)
      decreases Http.HEAD_LIMIT - |buffer|
    {
      var chunk := ReadOneMore(sock, start, |buffer|);
      if chunk.Err? {
        HeadMissing(start, buffer);
        return Err(chunk.error);
      }
      ScanGoesOn(start.inbound, buffer, chunk.value);
      buffer := buffer + chunk.value;
      if |buffer| > Http.HEAD_LIMIT {
        HeadTooLong(start, buffer);
        return Err(ProtocolViolation);
      }
    }
    HeadFound(start, buffer);
    r := Ok(buffer);
  }

  lemma ReadAtEnd(net: Net)
    requires net.inbound == []
    ensures Read(net, 1) == (Err(ReadFailure(net.closing)), net)
  {
  }

  lemma SkipOneMore(net: Net, k: nat)
    requires k < |net.inbound|
    ensures Read(Http.Skip(net, k), 1) == (Ok([net.inbound[k]]), Http.Skip(net, k + 1))
    ensures Http.Skip(net, k + 1).inbound == net.inbound[k + 1..]
    ensures net.inbound[..k + 1] == net.inbound[..k] + [net.inbound[k]]
  {
    var s := net.inbound;
    assert s[k..][..1] == [s[k]] && s[k..][1..] == s[k + 1..] && s[..k + 1] == s[..k] + [s[k]];
    assert Http.Singles(s[..k + 1]) == Http.Singles(s[..k]) + [Got([s[k]])];
    assert net.log + Http.Singles(s[..k]) + [Got([s[k]])] == net.log + Http.Singles(s[..k + 1]);
  }

  // --- one strategy per mode -------------------------------------------------------------

  class HttpConnectHandshake {
    constructor () {
    }

    method Establish(sock: Socket, host: string, port: int) returns (r: Result<Response, Failure>)
      modifies sock`inbound, sock`accepts, sock`slips, sock`log
      ensures (r, sock.Now()) == Http.Establish(host, port, old(sock.Now()))
    {
      var request := Http.BuildRequest(host, port);
      if request.Err? {
        return Err(request.error);
      }
      var failed := sock.SendAll(request.value);
      if failed.Some? {
        return Err(failed.value);
      }
      var head := ReadHttpHead(sock);
      if head.Err? {
        return Err(head.error);
      }
      r := Http.ParseResponse(head.value);
      if r.Ok? && !r.value.TunnelEstablished() {
        r := Err(Refused(Report.Http(r.value)));
      }
    }
  }

  class Socks5Handshake {
    const credentials: Socks.Credentials

    constructor (credentials: Socks.Credentials)
      ensures this.credentials == credentials
    {
      this.credentials := credentials;
    }

    /** Greeting, method selection, and authentication when the server asks for it. */
    method Negotiate(sock: Socket) returns (r: Result<byte, Failure>)
      modifies sock`inbound, sock`accepts, sock`slips, sock`log
      ensures (r, sock.Now()) == Socks.Negotiate(credentials, old(sock.Now()))
    {
      var methods: Bytes := [Socks.AUTH_NONE];
      if credentials.username.Some? {
        methods := methods + [Socks.AUTH_USERNAME_PASSWORD];
      }
      assert methods == credentials.Offered();
      var greeting := Socks.BuildGreeting(methods);
      var failed := sock.SendAll(greeting.value);
      if failed.Some? {
        return Err(failed.value);
      }
      var raw := sock.ReadExact(2);
      if raw.Err? {
        return Err(raw.error);
      }
      r := Socks.ParseMethodSelection(raw.value);
      if r.Err? {
        return;
      }
      var selected := r.value;
      if selected == Socks.AUTH_NO_ACCEPTABLE {
        r := Err(Refused(Socks5Auth(selected, MethodSelection)));
      } else if selected == Socks.AUTH_USERNAME_PASSWORD {
        r := Authenticate(sock);
      } else if selected != Socks.AUTH_NONE {
        r := Err(Refused(Socks5Auth(selected, MethodSelection)));
      }
    }

    method Authenticate(sock: Socket) returns (r: Result<byte, Failure>)
      modifies sock`inbound, sock`accepts, sock`slips, sock`log
      ensures (r, sock.Now()) == Socks.Authenticate(credentials, old(sock.Now()))
    {
      if credentials.username.None? || credentials.password.None? {
        return Err(Refused(Socks5Auth(Socks.AUTH_USERNAME_PASSWORD, MethodSelection)));
      }
      var message := Socks.BuildUserpassAuth(credentials.username.value, credentials.password.value);
      if message.Err? {
        return Err(message.error);
      }
      var failed := sock.SendAll(message.value);
      if failed.Some? {
        return Err(failed.value);
      }
      var raw := sock.ReadExact(2);
      if raw.Err? {
        return Err(raw.error);
      }
      var accepted := Socks.ParseUserpassResult(raw.value);
      if accepted.Err? {
        return Err(accepted.error);
      }
      r := if accepted.value then Ok(Socks.AUTH_USERNAME_PASSWORD)
           else Err(Refused(Socks5Auth(Socks.AUTH_USERNAME_PASSWORD, Userpass)));
    }

    method Establish(sock: Socket, host: Socks.Host, port: int) returns (r: Result<Socks5Result, Failure>)
      modifies sock`inbound, sock`accepts, sock`slips, sock`log
      ensures (r, sock.Now()) == Socks.Establish(credentials, host, port, old(sock.Now()))
    {
      var selected := Negotiate(sock);
      if selected.Err? {
        return Err(selected.error);
      }
      var request := Socks.BuildRequest(host, port);
      if request.Err? {
        return Err(request.error);
      }
      var failed := sock.SendAll(request.value);
      if failed.Some? {
        return Err(failed.value);
      }
      var reply := ReadSocks5Reply(sock);
      if reply.Err? {
        return Err(reply.error);
      }
      var result := Socks5Result(selected.value, reply.value);
      r := if reply.value.code == 0x00 then Ok(result) else Err(Refused(Report.Socks5(result)));
    }
  }

  // --- the stub proxy's side -----------------------------------------------------------------

  class StubProxy {
    const fail: bool

    constructor (fail: bool)
      ensures this.fail == fail
    {
      this.fail := fail;
    }

    /** Reads to the end of the header block, with no limit on its size. */
    method ReadRequestHead(conn: Socket) returns (r: Option<Bytes>)
      modifies conn`inbound, conn`accepts, conn`slips, conn`log
      ensures match Http.Search(old(conn.inbound), Http.HEADER_TERMINATOR, 0)
              case None => r == None && conn.Now() == Http.Skip(old(conn.Now()), |old(conn.inbound)|)
              case Some(i) => r == Some(old(conn.inbound)[..i + 4]) && conn.Now() == Http.Skip(old(conn.Now()), i + 4)
    {
      ghost var start := conn.Now();
      assert Http.Skip(start, 0) == start;
      hide *;
      var buffer: Bytes := [];
      ScanStarts(start.inbound);
      while Http.Search(buffer, Http.HEADER_TERMINATOR, 0).None?
        invariant |buffer| <= |start.inbound| && Scanned(start.inbound, buffer)
        invariant conn.Now() == Http.Skip(start, |buffer|)
        decreases |start.inbound| - |buffer|
      {
        var chunk := ReadOneMore(conn, start, |buffer|);
        if chunk.Err? {
          ScanMisses(start.inbound, buffer);
          return None;
        }
        ScanGoesOn(start.inbound, buffer, chunk.value);
        buffer := buffer + chunk.value;
      }
      ScanFinds(start.inbound, buffer);
      r := Some(buffer);
    }

    method NegotiateHttp(conn: Socket) returns (r: Http.StubOutcome)
      modifies conn`inbound, conn`accepts, conn`slips, conn`log
      ensures (r, conn.Now()) == Http.StubNegotiate(old(conn.Now()), fail)
    {
      hide Http.ParseRequestLine, Http.ParseTarget, Http.Search, Http.Before, Http.Skip;
      var head := ReadRequestHead(conn);
      if head.None? {
        return Http.NoTarget;
      }
      var authority := Http.ParseRequestLine(Http.Before(head.value, [13, 10]));
      if authority.None? {
        return Http.Crashed;
      }
      var failed := conn.SendAll(Http.StubReply(fail));
      if failed.Some? || fail {
        return Http.NoTarget;
      }
      r := Http.ParseTarget(authority.value);
    }

    /** `arrived` is how much the network had delivered at each read. */
    method NegotiateSocks5(conn: Socket) returns (r: Option<(Socks.Host, nat)>, ghost arrived: Socks.Arrivals)
      modifies conn`inbound, conn`accepts, conn`slips, conn`log
      ensures (r, conn.Now()) == Socks.StubNegotiate(old(conn.Now()), fail, arrived)
    {
      hide Receive, Socks.StubRequest;
      ghost var most;
      arrived := Socks.Arrivals(0, 0, 0, 0, 0);
      var header;
      header, most := conn.RecvUpTo(2);
      arrived := arrived.(header := most);
      if header.Err? || |header.value| < 2 { return None, arrived; }
      var methods;
      methods, most := conn.RecvUpTo(header.value[1]);
      arrived := arrived.(methods := most);
      if methods.Err? { return None, arrived; }
      var failed := conn.SendAll([Socks.VERSION, Socks.AUTH_NONE]);
      if failed.Some? { return None, arrived; }
      r, arrived := ReadRequest(conn, arrived);
    }

    method ReadRequest(conn: Socket, ghost before: Socks.Arrivals)
      returns (r: Option<(Socks.Host, nat)>, ghost arrived: Socks.Arrivals)
      modifies conn`inbound, conn`accepts, conn`slips, conn`log
      ensures (r, conn.Now()) == Socks.StubRequest(old(conn.Now()), fail, arrived)
      ensures arrived.header == before.header && arrived.methods == before.methods
    {
      hide Receive, Socks.StubHost, Socks.BigEndian, Socks.StubReply;
      ghost var most;
      arrived := before;
      var request;
      request, most := conn.RecvUpTo(4);
      arrived := arrived.(request := most);
      if request.Err? || |request.value| < 4 { return None, arrived; }
      var host;
      host, most := ReadHost(conn, request.value[3]);
      arrived := arrived.(address := most);
      if host.None? { return None, arrived; }
      var port;
      port, most := conn.RecvUpTo(2);
      arrived := arrived.(port := most);
      if port.Err? { return None, arrived; }
      var failed := conn.SendAll(Socks.StubReply(fail));
      if failed.Some? || fail { return None, arrived; }
      r := Some((host.value, Socks.BigEndian(port.value)));
    }

    method ReadHost(conn: Socket, atyp: byte) returns (r: Option<Socks.Host>, ghost arrived: nat)
      modifies conn`inbound
      ensures (r, conn.Now()) == Socks.StubHost(old(conn.Now()), atyp, arrived)
    {
      arrived := 0;
      if atyp == Socks.ATYP_DOMAINNAME {
        ghost var most;
        var length;
        length, most := conn.RecvUpTo(1);
        assert (length, conn.Now()) == Receive(old(conn.Now()), 1, 1);
        if length.Err? || length.value == [] { return None, 0; }
        hide Receive;
        var raw;
        raw, arrived := conn.RecvUpTo(length.value[0]);
        r := if raw.Ok? then Some(Socks.Name(raw.value)) else None;
      } else {
        hide Receive;
        var size := if atyp == Socks.ATYP_IPV4 then 4 else 16;
        var raw;
        raw, arrived := conn.RecvUpTo(size);
        if raw.Err? || |raw.value| < size { return None, arrived; }
        r := Some(if atyp == Socks.ATYP_IPV4 then Socks.Ipv4(raw.value) else Socks.Ipv6(raw.value));
      }
    }
  }
}
