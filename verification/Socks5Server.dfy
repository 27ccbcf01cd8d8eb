/**
 The other end of the SOCKS5 exchange as the standards describe it, in literal bytes:
 sections 3, 4 and 6 of RFC 1928 and section 2 of RFC 1929. A server of this kind
 understands everything the client sends, and the client everything it answers.
 */
module Socks5Server {
  import opened Basics
  import opened Connection
  import opened Reports
  import Socks = Socks5

  datatype Login = Login(user: Bytes, secret: Bytes)

  datatype Destination = Destination(host: Socks.Host, port: nat)

  /** What was read off the front of a stream, and what follows it. */
  datatype Parsed<T> = Parsed(value: T, rest: Bytes)

  // --- reading -------------------------------------------------------------------

  /** A field behind its length byte. */
  function ReadField(data: Bytes): Option<Parsed<Bytes>> {
    if data == [] then None
    else
      var n: nat := data[0];
      if |data| < 1 + n then None else Some(Parsed(data[1..1 + n], data[1 + n..]))
  }

  /** VER, NMETHODS, METHODS. */
  function ReadGreeting(data: Bytes): Option<Parsed<Bytes>> {
    if |data| < 2 || data[0] != 0x05 || data[1] == 0 then None else ReadField(data[1..])
  }

  /** VER, ULEN, UNAME, PLEN, PASSWD; the version is that of the subnegotiation. */
  function ReadLogin(data: Bytes): Option<Parsed<Login>> {
    if data == [] || data[0] != 0x01 then None
    else
      match ReadField(data[1..])
      case None => None
      case Some(user) =>
        match ReadField(user.rest)
        case None => None
        case Some(secret) => Some(Parsed(Login(user.value, secret.value), secret.rest))
  }

  /** VER, CMD, RSV, ATYP, DST.ADDR, DST.PORT, for CMD CONNECT. */
  function ReadRequest(data: Bytes): Option<Parsed<Destination>> {
    if |data| < 4 || data[0] != 0x05 || data[1] != 0x01 || data[2] != 0x00 then None
    else
      var rest := data[4..];
      if data[3] == 0x01 && |rest| >= 4 then ReadPort(Socks.Ipv4(rest[..4]), rest[4..])
      else if data[3] == 0x04 && |rest| >= 16 then ReadPort(Socks.Ipv6(rest[..16]), rest[16..])
      else if data[3] == 0x03 && ReadField(rest).Some? then
        ReadPort(Socks.Name(ReadField(rest).value.value), ReadField(rest).value.rest)
      else None
  }

  /** In network byte order. */
  function ReadPort(host: Socks.Host, data: Bytes): Option<Parsed<Destination>> {
    if |data| < 2 then None
    else
      var high: nat, low: nat := data[0], data[1];
      Some(Parsed(Destination(host, 256 * high + low), data[2..]))
  }

  /** Everything a client sends before the tunnel is open, when the server selects this
      method. */
  datatype Session = Session(methods: Bytes, login: Option<Login>, destination: Destination)

  function ReadSession(data: Bytes, selected: byte): Option<Parsed<Session>> {
    match ReadGreeting(data)
    case None => None
    case Some(greeting) =>
      if selected != 0x02 then ReadDestination(greeting.value, None, greeting.rest)
      else
        match ReadLogin(greeting.rest)
        case None => None
        case Some(login) => ReadDestination(greeting.value, Some(login.value), login.rest)
  }

  function ReadDestination(methods: Bytes, login: Option<Login>, data: Bytes): Option<Parsed<Session>> {
    match ReadRequest(data)
    case None => None
    case Some(request) => Some(Parsed(Session(methods, login, request.value), request.rest))
  }

  // --- answering -----------------------------------------------------------------

  /** VER, REP, RSV, ATYP, BND.ADDR, BND.PORT. */
  function Reply(code: byte, reserved: byte, host: Socks.Host, port: nat): Bytes
    requires Socks.Bindable(host) && port < 0x1_0000
  {
    (match host
     case Ipv4(octets) => [0x05, code, reserved, 0x01] + octets
     case Ipv6(octets) => [0x05, code, reserved, 0x04] + octets
     case Name(text) => [0x05, code, reserved, 0x03, |text|] + text)
    + [port / 256, port % 256]
  }

  /** The method selection, the status of the subnegotiation if there is one, and the
      reply that opens the tunnel. */
  function Grants(selected: byte, version: byte, reserved: byte, host: Socks.Host, port: nat): Bytes
    requires Socks.Bindable(host) && port < 0x1_0000
  {
    [0x05, selected] + (if selected == 0x02 then [version, 0x00] else []) + Reply(0x00, reserved, host, port)
  }

  /** Which messages can be built at all: those whose lengths fit their length bytes, and
      none of which is empty, for a port of sixteen bits. */
  lemma BuildableIff(methods: Bytes, login: Login, host: Socks.Host, port: int)
    ensures Socks.BuildGreeting(methods).Ok? <==> 1 <= |methods| <= 255
    ensures Socks.BuildUserpassAuth(login.user, login.secret).Ok?
       <==> 1 <= |login.user| <= 255 && 1 <= |login.secret| <= 255
    ensures Socks.BuildRequest(host, port).Ok?
       <==> 0 <= port <= 65535 && (host.Name? ==> 1 <= |host.text| <= 255)
  {
  }

  // --- the server understands the client -------------------------------------------

  lemma FieldReadsBack(field: Bytes, rest: Bytes)
    requires |field| < 256
    ensures ReadField([|field|] + (field + rest)) == Some(Parsed(field, rest))
  {
    var data: Bytes := [|field|] + (field + rest);
    assert data[1..1 + |field|] == field && data[1 + |field|..] == rest;
  }

  lemma GreetingReadsBack(methods: Bytes, tail: Bytes)
    requires Socks.BuildGreeting(methods).Ok?
    ensures ReadGreeting(Socks.BuildGreeting(methods).value + tail) == Some(Parsed(methods, tail))
  {
    var data := Socks.BuildGreeting(methods).value + tail;
    assert data[1..] == [|methods|] + (methods + tail);
    FieldReadsBack(methods, tail);
  }

  /** The credentials arrive as they were configured, the user's name first. */
  lemma {:induction false} LoginReadsBack(user: Bytes, secret: Bytes, tail: Bytes)
    requires Socks.BuildUserpassAuth(user, secret).Ok?
    ensures ReadLogin(Socks.BuildUserpassAuth(user, secret).value + tail) == Some(Parsed(Login(user, secret), tail))
  {
    var data := Socks.BuildUserpassAuth(user, secret).value + tail;
    assert data[1..] == [|user|] + (user + ([|secret|] + (secret + tail)));
    FieldReadsBack(user, [|secret|] + (secret + tail));
    FieldReadsBack(secret, tail);
  }

  lemma {:induction false} RequestReadsBack(host: Socks.Host, port: int, tail: Bytes)
    requires Socks.BuildRequest(host, port).Ok? && (host.Ipv4? || host.Ipv6? ==> host.Proper())
    ensures 0 <= port < 0x1_0000
    ensures ReadRequest(Socks.BuildRequest(host, port).value + tail) == Some(Parsed(Destination(host, port), tail))
  {
    RequestBytes(host, port, tail);
    PortReadsBack(host, port, tail);
    var rest: Bytes := [port / 256, port % 256] + tail;
    hide Socks.BuildRequest, ReadPort, ReadField;
    match host {
      case Ipv4(octets) => Apart(octets, rest);
      case Ipv6(octets) => Apart(octets, rest);
      case Name(text) => FieldReadsBack(text, rest);
    }
  }

  lemma Apart(a: Bytes, b: Bytes)
    ensures (a + b)[..|a|] == a && (a + b)[|a|..] == b
  {
  }

  lemma PortReadsBack(host: Socks.Host, port: nat, tail: Bytes)
    requires port < 0x1_0000
    ensures ReadPort(host, [port / 256, port % 256] + tail) == Some(Parsed(Destination(host, port), tail))
  {
    Apart([port / 256, port % 256], tail);
  }

  /** The bytes of a request, one field after the other. */
  lemma RequestBytes(host: Socks.Host, port: int, tail: Bytes)
    requires Socks.BuildRequest(host, port).Ok? && (host.Ipv4? || host.Ipv6? ==> host.Proper())
    ensures 0 <= port < 0x1_0000 && (host.Name? ==> |host.text| < 256)
    ensures var data, rest: Bytes := Socks.BuildRequest(host, port).value + tail, [port / 256, port % 256] + tail;
            |data| >= 4
            && match host
               case Ipv4(octets) => data[..4] == [0x05, 0x01, 0x00, 0x01] && data[4..] == octets + rest
               case Ipv6(octets) => data[..4] == [0x05, 0x01, 0x00, 0x04] && data[4..] == octets + rest
               case Name(text) => data[..4] == [0x05, 0x01, 0x00, 0x03] && data[4..] == [|text|] + (text + rest)
  {
  }

  lemma NothingAround(data: Bytes)
    ensures data + [] == data && [] + data == data
  {
  }

  lemma {:induction false} SessionReadsBack(methods: Bytes, selected: byte, login: Login, host: Socks.Host, port: int)
    requires Socks.BuildGreeting(methods).Ok? && Socks.BuildRequest(host, port).Ok?
    requires host.Ipv4? || host.Ipv6? ==> host.Proper()
    requires selected == 0x02 ==> Socks.BuildUserpassAuth(login.user, login.secret).Ok?
    ensures 0 <= port < 0x1_0000
    ensures var secret := if selected == 0x02 then Socks.BuildUserpassAuth(login.user, login.secret).value else [];
            ReadSession(Socks.BuildGreeting(methods).value + secret + Socks.BuildRequest(host, port).value, selected)
            == Some(Parsed(Session(methods, if selected == 0x02 then Some(login) else None, Destination(host, port)),
                           []))
  {
    var greeting, request := Socks.BuildGreeting(methods).value, Socks.BuildRequest(host, port).value;
    var secret := if selected == 0x02 then Socks.BuildUserpassAuth(login.user, login.secret).value else [];
    NothingAround(request);
    hide Socks.BuildGreeting, Socks.BuildRequest, Socks.BuildUserpassAuth, ReadGreeting, ReadLogin, ReadRequest;
    Assoc(greeting, secret, request);
    GreetingReadsBack(methods, secret + request);
    RequestReadsBack(host, port, []);
    if selected == 0x02 {
      LoginReadsBack(login.user, login.secret, request);
    }
  }

  /** A server that reads what the client sent before the tunnel was open finds the
      methods, the configured username and password if it asked for them, the
      destination, and nothing else. */
  lemma {:induction false} ServerUnderstands(credentials: Socks.Credentials, host: Socks.Host, port: int, net: Net)
    returns (sent: Bytes)
    requires Socks.Establish(credentials, host, port, net).0.Ok?
    requires host.Ipv4? || host.Ipv6? ==> host.Proper()
    ensures var (result, after) := Socks.Establish(credentials, host, port, net);
            var asked := result.value.selected == 0x02;
            && SentBytes(after.log) == SentBytes(net.log) + sent
            && 0 <= port < 0x1_0000
            && (asked ==> credentials.username.Some? && credentials.password.Some?)
            && ReadSession(sent, result.value.selected)
               == Some(Parsed(Session(if credentials.username.Some? then [0x00, 0x02] else [0x00],
                                      if asked then Some(Login(credentials.username.value, credentials.password.value))
                                      else None,
                                      Destination(host, port)),
                              []))
  {
    Socks.GrantedSends(credentials, host, port, net);
    ghost var selected := Socks.Establish(credentials, host, port, net).0.value.selected;
    var secret := if selected == 0x02 then Socks.Secret(credentials).value else [];
    var login := if selected == 0x02 then Login(credentials.username.value, credentials.password.value)
                 else Login([], []);
    var methods := credentials.Offered();
    assert Socks.BuildGreeting(methods) == Ok(Socks.Greeting(credentials));
    hide Socks.Establish, SentBytes, Socks.BuildGreeting, Socks.BuildRequest, Socks.BuildUserpassAuth, ReadSession;
    sent := Socks.Greeting(credentials) + secret + Socks.BuildRequest(host, port).value;
    Assoc(SentBytes(net.log), Socks.Greeting(credentials) + secret, Socks.BuildRequest(host, port).value);
    SessionReadsBack(methods, selected, login, host, port);
  }

  // --- the client understands the server -------------------------------------------

  lemma ReplyIsStandard(code: byte, reserved: byte, host: Socks.Host, port: nat)
    requires Socks.Bindable(host) && port < 0x1_0000
    ensures Socks.ReplyBytes(code, reserved, Socks.AddressBytes(host, port)) == Reply(code, reserved, host, port)
  {
  }

  /** Any reply of a server reads back as its code, its address and its port; what
      follows it is left alone. A byte of a name that is not ASCII is replaced. */
  lemma {:induction false} ClientReadsReply(net: Net, code: byte, reserved: byte, host: Socks.Host, port: nat,
                                            tail: Bytes)
    requires Socks.Bindable(host) && port < 0x1_0000 && net.inbound == Reply(code, reserved, host, port) + tail
    ensures var (reply, after) := Socks.ReadReply(net);
            && after.inbound == tail && reply.Ok? && reply.value.code == code && reply.value.port == port
            && match host
               case Ipv4(octets) => reply.value.host == BoundIpv4(octets)
               case Ipv6(octets) => reply.value.host == BoundIpv6(octets)
               case Name(text) =>
                 && reply.value.host.BoundName? && |reply.value.host.text| == |text|
                 && forall i :: 0 <= i < |text| ==>
                      reply.value.host.text[i] == if text[i] < 128 then text[i] as int else 0xFFFD
  {
    ReplyIsStandard(code, reserved, host, port);
    hide Socks.ReadReply, Reply;
    Socks.ReplyReadsBack(net, code, reserved, host, port, tail);
  }

  /** A server that grants the tunnel, with or without authentication, is accepted, and
      the bytes behind its reply are left to the tunnel; every other one is refused, or
      the client cannot go through with it. */
  lemma {:induction false} ClientUnderstandsIff(credentials: Socks.Credentials, host: Socks.Host, port: int, net: Net,
                                                tail: Bytes)
    ensures Socks.Establish(credentials, host, port, net).0.Ok?
            && Socks.Establish(credentials, host, port, net).1.inbound == tail
       <==> exists g: Socks.Grant :: g.selected in {0x00, 0x02} && Socks.Bindable(g.address) && g.port < 0x1_0000
              && Socks.CanComplete(credentials, host, port, net, g.selected)
              && net.inbound == Grants(g.selected, g.authVersion, g.reserved, g.address, g.port) + tail
  {
    hide Socks.Establish, Grants, Socks.CanComplete, Socks.Grant.Script;
    if g: Socks.Grant :| g.selected in {0x00, 0x02} && Socks.Bindable(g.address) && g.port < 0x1_0000
                         && Socks.CanComplete(credentials, host, port, net, g.selected)
                         && net.inbound == Grants(g.selected, g.authVersion, g.reserved, g.address, g.port) + tail {
      ScriptIsStandard(g);
      Socks.ScriptGrants(credentials, host, port, net, g, tail);
    }
    if Socks.Establish(credentials, host, port, net).0.Ok?
       && Socks.Establish(credentials, host, port, net).1.inbound == tail {
      var g := Socks.SuccessHadScript(credentials, host, port, net);
      ScriptIsStandard(g);
    }
  }

  lemma ScriptIsStandard(g: Socks.Grant)
    requires Socks.Bindable(g.address) && g.port < 0x1_0000
    ensures g.Proper() <==> g.selected in {0x00, 0x02}
    ensures g.Proper() ==> g.Script() == Grants(g.selected, g.authVersion, g.reserved, g.address, g.port)
  {
    hide Reply, Socks.ReplyBytes, Socks.AddressBytes;
    ReplyIsStandard(0x00, g.reserved, g.address, g.port);
  }

  // --- refusals --------------------------------------------------------------------

  /** Another method, or none, is selected: the client reports it and sends nothing more. */
  lemma {:induction false} MethodRefused(credentials: Socks.Credentials, host: Socks.Host, port: int, net: Net,
                                         selected: byte, tail: Bytes)
    requires net.inbound == [0x05, selected] + tail && net.accepts > 0
    requires selected != 0x00
    requires selected == 0x02 ==> credentials.username.None? || credentials.password.None?
    ensures var (r, after) := Socks.Establish(credentials, host, port, net);
            && r == Err(Refused(Socks5Auth(selected, MethodSelection)))
            && after.inbound == tail && after.accepts + 1 == net.accepts
  {
    var (_, sent) := Socks.SendBuilt(net, Socks.BuildGreeting(credentials.Offered()));
    hide Read;
    Socks.ReadFront(sent, [0x05, selected], tail);
  }

  /** The credentials are refused: the client reports that, and sends no request. */
  lemma {:induction false} LoginRefused(credentials: Socks.Credentials, host: Socks.Host, port: int, net: Net,
                                        version: byte, status: byte, tail: Bytes)
    requires net.inbound == [0x05, 0x02] + ([version, status] + tail) && status != 0x00 && net.accepts > 1
    requires credentials.username.Some? && credentials.password.Some?
    requires Socks.BuildUserpassAuth(credentials.username.value, credentials.password.value).Ok?
    ensures var (r, after) := Socks.Establish(credentials, host, port, net);
            && r == Err(Refused(Socks5Auth(0x02, Userpass)))
            && after.inbound == tail && after.accepts + 2 == net.accepts
  {
    var login := Socks.BuildUserpassAuth(credentials.username.value, credentials.password.value);
    var (_, sent) := Socks.SendBuilt(net, Socks.BuildGreeting(credentials.Offered()));
    hide Read, Socks.BuildUserpassAuth;
    Socks.ReadFront(sent, [0x05, 0x02], [version, status] + tail);
    var (_, asked) := Socks.SendBuilt(Read(sent, 2).1, login);
    Socks.ReadFront(asked, [version, status], tail);
  }

  /** The request is refused: the client reports the reply, whatever its code is. */
  lemma {:induction false} RequestRefused(credentials: Socks.Credentials, host: Socks.Host, port: int, net: Net,
                                          g: Socks.Grant, code: byte, tail: Bytes)
    requires g.selected in {0x00, 0x02} && Socks.Bindable(g.address) && g.port < 0x1_0000 && code != 0x00
    requires Socks.CanComplete(credentials, host, port, net, g.selected)
    requires net.inbound == [0x05, g.selected] + ((if g.selected == 0x02 then [g.authVersion, 0x00] else [])
                                                  + (Reply(code, g.reserved, g.address, g.port) + tail))
    ensures var (r, after) := Socks.Establish(credentials, host, port, net);
            && after.inbound == tail && r.Err? && r.error.Refused? && r.error.report.Socks5?
            && r.error.report.result.selected == g.selected
            && r.error.report.result.reply.code == code && r.error.report.result.reply.port == g.port
  {
    hide Socks.Negotiate, Socks.ReadReply, Reply, Socks.BuildRequest, Socks.BuildUserpassAuth;
    ReplyIsStandard(code, g.reserved, g.address, g.port);
    Socks.NegotiationGranted(credentials, net, g, Reply(code, g.reserved, g.address, g.port) + tail);
    var (_, negotiated) := Socks.Negotiate(credentials, net);
    var (_, asked) := Socks.SendBuilt(negotiated, Socks.BuildRequest(host, port));
    Socks.ReplyReadsBack(asked, code, g.reserved, g.address, g.port, tail);
  }

  /** A stub that is told to fail has no target. */
  lemma StubRefuses(net: Net, arrived: Socks.Arrivals)
    ensures Socks.StubNegotiate(net, true, arrived).0 == None
  {
  }

  /** The two answers of the stub proxy. */
  lemma StubAnswers()
    ensures Socks.StubReply(false) == [0x05, 0x00, 0x00, 0x01, 0, 0, 0, 0, 0, 0]
    ensures Socks.StubReply(true) == [0x05, 0x05, 0x00, 0x01, 0, 0, 0, 0, 0, 0]
  {
  }
}
