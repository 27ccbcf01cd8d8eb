/**
 SOCKS5: the wire formats of sections 3, 4 and 6 of RFC 1928 and section 2 of
 RFC 1929, and the client's side of the exchange as a function of what it receives.
 */
module Socks5 {
  import opened Basics
  import opened Connection
  import opened Reports

  const VERSION: byte := 0x05
  const AUTH_NONE: byte := 0x00
  const AUTH_USERNAME_PASSWORD: byte := 0x02
  const AUTH_NO_ACCEPTABLE: byte := 0xFF
  const CMD_CONNECT: byte := 0x01
  const ATYP_IPV4: byte := 0x01
  const ATYP_DOMAINNAME: byte := 0x03
  const ATYP_IPV6: byte := 0x04
  const SUBNEGOTIATION_VERSION: byte := 0x01

  /** A destination, after its text was classified as an address literal or a name. */
  datatype Host = Ipv4(octets: Bytes) | Ipv6(octets: Bytes) | Name(text: Bytes) {
    predicate Proper() {
      match this
      case Ipv4(octets) => |octets| == 4
      case Ipv6(octets) => |octets| == 16
      case Name(text) => forall i :: 0 <= i < |text| ==> text[i] < 0x80
    }
  }

  // --- encoders ----------------------------------------------------------------

  function PortBytes(port: nat): (raw: Bytes)
    requires port < 0x1_0000
    ensures |raw| == 2
  {
    [port / 256, port % 256]
  }

  function PortOf(raw: Bytes): nat
    requires |raw| == 2
  {
    var high: int, low: int := raw[0], raw[1];
    256 * high + low
  }

  function EncodeAddress(host: Host, port: int): Result<Bytes, Failure> {
    if host.Name? && !(1 <= |host.text| <= 255) then Err(ConfigurationError)
    else if !(0 <= port < 0x1_0000) then Err(PortOutOfRange)
    else
      match host
      case Ipv4(octets) => Ok([ATYP_IPV4] + octets + PortBytes(port))
      case Ipv6(octets) => Ok([ATYP_IPV6] + octets + PortBytes(port))
      case Name(text) => Ok([ATYP_DOMAINNAME, |text|] + text + PortBytes(port))
  }

  function BuildGreeting(methods: Bytes): Result<Bytes, Failure> {
    if 1 <= |methods| <= 255 then Ok([VERSION, |methods|] + methods) else Err(ConfigurationError)
  }

  function BuildRequest(host: Host, port: int): Result<Bytes, Failure> {
    match EncodeAddress(host, port)
    case Ok(address) => Ok([VERSION, CMD_CONNECT, 0x00] + address)
    case Err(e) => Err(e)
  }

  function BuildUserpassAuth(user: Bytes, secret: Bytes): Result<Bytes, Failure> {
    if 1 <= |user| <= 255 && 1 <= |secret| <= 255 then
      Ok([SUBNEGOTIATION_VERSION, |user|] + user + [|secret|] + secret)
    else Err(ConfigurationError)
  }

  // --- parsers -----------------------------------------------------------------

  function ParseMethodSelection(raw: Bytes): Result<byte, Failure> {
    if |raw| != 2 || raw[0] != VERSION then Err(ProtocolViolation) else Ok(raw[1])
  }

  /** Only the status byte is looked at. */
  function ParseUserpassResult(raw: Bytes): Result<bool, Failure> {
    if |raw| != 2 then Err(ProtocolViolation) else Ok(raw[1] == 0x00)
  }

  function AsciiOrReplacement(data: Bytes): (text: seq<int>)
    ensures |text| == |data|
  {
    seq(|data|, i requires 0 <= i < |data| => var b: int := data[i]; if b < 0x80 then b else 0xFFFD)
  }

  function Bound(host: Host): BoundHost {
    match host
    case Ipv4(octets) => BoundIpv4(octets)
    case Ipv6(octets) => BoundIpv6(octets)
    case Name(text) => BoundName(AsciiOrReplacement(text))
  }

  /** The address part of a reply, whose length depends on its type byte. */
  function ReadBoundHost(net: Net, atyp: byte): (Result<BoundHost, Failure>, Net) {
    if atyp == ATYP_IPV4 then
      var (raw, after) := Read(net, 4);
      (if raw.Ok? then Ok(BoundIpv4(raw.value)) else Err(raw.error), after)
    else if atyp == ATYP_IPV6 then
      var (raw, after) := Read(net, 16);
      (if raw.Ok? then Ok(BoundIpv6(raw.value)) else Err(raw.error), after)
    else if atyp == ATYP_DOMAINNAME then
      var (length, after) := Read(net, 1);
      if length.Err? then (Err(length.error), after)
      else
        var (raw, end) := Read(after, length.value[0]);
        (if raw.Ok? then Ok(BoundName(AsciiOrReplacement(raw.value))) else Err(raw.error), end)
    else (Err(ProtocolViolation), net)
  }

  function ReadReply(net: Net): (Result<Reply, Failure>, Net) {
    var (header, after) := Read(net, 4);
    if header.Err? then (Err(header.error), after)
    else if header.value[0] != VERSION then (Err(ProtocolViolation), after)
    else
      var (host, next) := ReadBoundHost(after, header.value[3]);
      if host.Err? then (Err(host.error), next)
      else
        var (port, end) := Read(next, 2);
        if port.Err? then (Err(port.error), end)
        else (Ok(Reply(header.value[1], host.value, PortOf(port.value))), end)
  }

  // --- the client --------------------------------------------------------------

  /** Credentials as UTF-8 bytes, if configured. */
  datatype Credentials = Credentials(username: Option<Bytes>, password: Option<Bytes>) {
    function Offered(): Bytes {
      if username.Some? then [AUTH_NONE, AUTH_USERNAME_PASSWORD] else [AUTH_NONE]
    }
  }

  /** Sends a message that may turn out to be impossible to build. */
  function SendBuilt(net: Net, message: Result<Bytes, Failure>): (Option<Failure>, Net) {
    match message
    case Err(e) => (Some(e), net)
    case Ok(data) => Send(net, data)
  }

  function Authenticate(credentials: Credentials, net: Net): (Result<byte, Failure>, Net) {
    if credentials.username.None? || credentials.password.None? then
      (Err(Refused(Socks5Auth(AUTH_USERNAME_PASSWORD, MethodSelection))), net)
    else
      var (failed, sent) :=
        SendBuilt(net, BuildUserpassAuth(credentials.username.value, credentials.password.value));
      if failed.Some? then (Err(failed.value), sent)
      else
        var (raw, after) := Read(sent, 2);
        if raw.Err? then (Err(raw.error), after)
        else
          match ParseUserpassResult(raw.value)
          case Err(e) => (Err(e), after)
          case Ok(accepted) =>
            (if accepted then Ok(AUTH_USERNAME_PASSWORD)
             else Err(Refused(Socks5Auth(AUTH_USERNAME_PASSWORD, Userpass))), after)
  }

  /** The negotiation from the server's choice on. */
  function Choose(credentials: Credentials, sent: Net): (Result<byte, Failure>, Net) {
    var (raw, after) := Read(sent, 2);
    if raw.Err? then (Err(raw.error), after)
    else
      match ParseMethodSelection(raw.value)
      case Err(e) => (Err(e), after)
      case Ok(selected) =>
        if selected == AUTH_NO_ACCEPTABLE then (Err(Refused(Socks5Auth(selected, MethodSelection))), after)
        else if selected == AUTH_USERNAME_PASSWORD then Authenticate(credentials, after)
        else if selected != AUTH_NONE then (Err(Refused(Socks5Auth(selected, MethodSelection))), after)
        else (Ok(selected), after)
  }

  function Negotiate(credentials: Credentials, net: Net): (Result<byte, Failure>, Net) {
    var (failed, sent) := SendBuilt(net, BuildGreeting(credentials.Offered()));
    if failed.Some? then (Err(failed.value), sent) else Choose(credentials, sent)
  }

  function Request(host: Host, port: int, selected: byte, net: Net): (Result<Socks5Result, Failure>, Net) {
    var (failed, sent) := SendBuilt(net, BuildRequest(host, port));
    if failed.Some? then (Err(failed.value), sent)
    else
      var (reply, end) := ReadReply(sent);
      if reply.Err? then (Err(reply.error), end)
      else if reply.value.code != 0x00 then (Err(Refused(Socks5(Socks5Result(selected, reply.value)))), end)
      else (Ok(Socks5Result(selected, reply.value)), end)
  }

  function Establish(credentials: Credentials, host: Host, port: int, net: Net): (Result<Socks5Result, Failure>, Net) {
    var (selected, negotiated) := Negotiate(credentials, net);
    if selected.Err? then (Err(selected.error), negotiated) else Request(host, port, selected.value, negotiated)
  }

  // --- round trips --------------------------------------------------------------

  lemma PortReadsBack(port: nat)
    requires port < 0x1_0000
    ensures PortOf(PortBytes(port)) == port
  {
  }

  /** A read of exactly what comes first leaves exactly what follows. */
  lemma ReadFront(net: Net, front: Bytes, rest: Bytes)
    requires net.inbound == front + rest
    ensures Read(net, |front|) == (Ok(front), net.(inbound := rest, log := net.log + [Got(front)]))
  {
    assert net.inbound[..|front|] == front && net.inbound[|front|..] == rest;
  }

  /** The server's reply message. */
  function ReplyBytes(code: byte, reserved: byte, address: Bytes): Bytes {
    [VERSION, code, reserved] + address
  }

  /** Addresses a reply can carry; unlike a request, it may have an empty name. */
  predicate Bindable(host: Host) {
    match host
    case Ipv4(octets) => |octets| == 4
    case Ipv6(octets) => |octets| == 16
    case Name(text) => |text| <= 255
  }

  function AddressType(host: Host): byte {
    match host
    case Ipv4(_) => ATYP_IPV4
    case Ipv6(_) => ATYP_IPV6
    case Name(_) => ATYP_DOMAINNAME
  }

  /** What follows the type byte. */
  function AddressTail(host: Host, port: nat): Bytes
    requires Bindable(host) && port < 0x1_0000
  {
    match host
    case Ipv4(octets) => octets + PortBytes(port)
    case Ipv6(octets) => octets + PortBytes(port)
    case Name(text) => [|text|] + (text + PortBytes(port))
  }

  function AddressBytes(host: Host, port: nat): Bytes
    requires Bindable(host) && port < 0x1_0000
  {
    [AddressType(host)] + AddressTail(host, port)
  }

  /** What the client encodes is such an address. */
  lemma EncodedIsAddress(host: Host, port: int)
    requires EncodeAddress(host, port).Ok? && (host.Ipv4? || host.Ipv6? ==> host.Proper())
    ensures Bindable(host) && 0 <= port < 0x1_0000 && EncodeAddress(host, port).value == AddressBytes(host, port)
  {
    hide PortBytes;
    var tail := PortBytes(port);
    match host {
      case Ipv4(octets) => assert [ATYP_IPV4] + octets + tail == [ATYP_IPV4] + (octets + tail);
      case Ipv6(octets) => assert [ATYP_IPV6] + octets + tail == [ATYP_IPV6] + (octets + tail);
      case Name(text) =>
        assert [ATYP_DOMAINNAME, |text|] == [ATYP_DOMAINNAME] + [|text|];
        assert [ATYP_DOMAINNAME, |text|] + text + tail == [ATYP_DOMAINNAME] + ([|text|] + (text + tail));
    }
  }

  /** Reading back what follows a type byte. */
  lemma TailInPieces(host: Host, port: nat, tail: Bytes)
    requires Bindable(host) && port < 0x1_0000
    ensures var rest := PortBytes(port) + tail;
            AddressTail(host, port) + tail == match host
                                              case Ipv4(octets) => octets + rest
                                              case Ipv6(octets) => octets + rest
                                              case Name(text) => [|text|] + (text + rest)
  {
    hide PortBytes;
  }

  lemma {:induction false} TailReadsBack(net: Net, host: Host, port: nat, tail: Bytes)
    requires Bindable(host) && port < 0x1_0000
    requires net.inbound == AddressTail(host, port) + tail
    ensures var (r, after) := ReadBoundHost(net, AddressType(host));
            r == Ok(Bound(host)) && after.inbound == PortBytes(port) + tail
  {
    TailInPieces(host, port, tail);
    hide Read, PortBytes, AddressTail;
    var rest := PortBytes(port) + tail;
    match host {
      case Ipv4(octets) => ReadFront(net, octets, rest);
      case Ipv6(octets) => ReadFront(net, octets, rest);
      case Name(text) =>
        ReadFront(net, [|text|], text + rest);
        var (length, after) := Read(net, 1);
        ReadFront(after, text, rest);
    }
  }

  /** A reply is read piece by piece. */
  lemma {:induction false} ReplyByPieces(net: Net, header: Bytes, rest: Bytes, raw: Bytes, tail: Bytes)
    returns (after: Net)
    requires |header| == 4 && header[0] == VERSION && net.inbound == header + rest && |raw| == 2
    ensures after.inbound == rest
    ensures var (host, next) := ReadBoundHost(after, header[3]);
            host.Ok? && next.inbound == raw + tail ==>
              ReadReply(net).0 == Ok(Reply(header[1], host.value, PortOf(raw))) && ReadReply(net).1.inbound == tail
  {
    hide Read, PortOf, ReadBoundHost;
    ReadFront(net, header, rest);
    after := Read(net, 4).1;
    var (host, next) := ReadBoundHost(after, header[3]);
    if host.Ok? && next.inbound == raw + tail {
      ReadFront(next, raw, tail);
    }
  }

  lemma ReplySplits(code: byte, reserved: byte, host: Host, port: nat, tail: Bytes)
    requires Bindable(host) && port < 0x1_0000
    ensures ReplyBytes(code, reserved, AddressBytes(host, port)) + tail
         == [VERSION, code, reserved, AddressType(host)] + (AddressTail(host, port) + tail)
  {
    hide AddressTail;
  }

  /** `read_socks5_reply` undoes the server's encoder for every address type and
      every port, and reads nothing past the reply. */
  lemma {:induction false} ReplyReadsBack(net: Net, code: byte, reserved: byte, host: Host, port: nat, tail: Bytes)
    requires Bindable(host) && port < 0x1_0000
    requires net.inbound == ReplyBytes(code, reserved, AddressBytes(host, port)) + tail
    ensures ReadReply(net).0 == Ok(Reply(code, Bound(host), port))
    ensures ReadReply(net).1.inbound == tail
  {
    ReplySplits(code, reserved, host, port, tail);
    PortReadsBack(port);
    hide *;
    var header: Bytes := [VERSION, code, reserved, AddressType(host)];
    var after := ReplyByPieces(net, header, AddressTail(host, port) + tail, PortBytes(port), tail);
    TailReadsBack(after, host, port, tail);
  }

  /** The client's own encoder produces such an address, and an ASCII name comes
      back as the text that went in. */
  lemma {:induction false} EncodedAddressReadsBack(net: Net, code: byte, host: Host, port: int, tail: Bytes)
    requires host.Proper() && EncodeAddress(host, port).Ok?
    requires net.inbound == ReplyBytes(code, 0, EncodeAddress(host, port).value) + tail
    ensures ReadReply(net).0.Ok? && ReadReply(net).1.inbound == tail
    ensures var reply := ReadReply(net).0.value;
            && reply.code == code && reply.port == port
            && reply.host == (match host
                              case Ipv4(octets) => BoundIpv4(octets)
                              case Ipv6(octets) => BoundIpv6(octets)
                              case Name(text) => BoundName(text))
  {
    EncodedIsAddress(host, port);
    ReplyReadsBack(net, code, 0, host, port, tail);
    if host.Name? {
      assert AsciiOrReplacement(host.text) == host.text;
    }
    hide ReadReply, EncodeAddress, ReplyBytes, AddressBytes;
  }

  // --- what the stub proxy makes of the client's messages -----------------------------

  /** How much has come in when the stub makes each of its reads. */
  datatype Arrivals = Arrivals(header: nat, methods: nat, request: nat, address: nat, port: nat)

  /** `_negotiate_socks5`: single reads, some of them checked for their length; the
      methods are skipped, no authentication is selected, and any type byte but IPv4
      and domain name is read as IPv6. */
  function StubNegotiate(net: Net, fail: bool, arrived: Arrivals): (Option<(Host, nat)>, Net) {
    var (header, a) := Receive(net, 2, arrived.header);
    if header.Err? || |header.value| < 2 then (None, a)
    else
      var (methods, b) := Receive(a, header.value[1], arrived.methods);
      if methods.Err? then (None, b)
      else
        var (failed, c) := Send(b, [VERSION, AUTH_NONE]);
        if failed.Some? then (None, c) else StubRequest(c, fail, arrived)
  }

  function StubRequest(net: Net, fail: bool, arrived: Arrivals): (Option<(Host, nat)>, Net) {
    var (request, d) := Receive(net, 4, arrived.request);
    if request.Err? || |request.value| < 4 then (None, d)
    else
      var (host, e) := StubHost(d, request.value[3], arrived.address);
      if host.None? then (None, e)
      else
        var (port, f) := Receive(e, 2, arrived.port);
        if port.Err? then (None, f)
        else
          var (failed, g) := Send(f, StubReply(fail));
          (if failed.Some? || fail then None else Some((host.value, BigEndian(port.value))), g)
  }

  /** A short address literal is an error, a short name is not. */
  function StubHost(net: Net, atyp: byte, arrived: nat): (Option<Host>, Net) {
    if atyp == ATYP_DOMAINNAME then
      var (length, after) := Receive(net, 1, 1);
      if length.Err? || length.value == [] then (None, after)
      else
        var (raw, end) := Receive(after, length.value[0], arrived);
        (if raw.Ok? then Some(Name(raw.value)) else None, end)
    else
      var size := if atyp == ATYP_IPV4 then 4 else 16;
      var (raw, after) := Receive(net, size, arrived);
      if raw.Err? || |raw.value| < size then (None, after)
      else (Some(if atyp == ATYP_IPV4 then Ipv4(raw.value) else Ipv6(raw.value)), after)
  }

  function BigEndian(raw: Bytes): nat {
    if raw == [] then 0 else 256 * BigEndian(raw[..|raw| - 1]) + raw[|raw| - 1]
  }

  function StubReply(fail: bool): Bytes {
    ReplyBytes(if fail then 0x05 else 0x00, 0x00, AddressBytes(Ipv4([0, 0, 0, 0]), 0))
  }

  function AddressOf(host: Host): Bytes {
    match host
    case Ipv4(octets) => octets
    case Ipv6(octets) => octets
    case Name(text) => text
  }

  /** Enough has come in at each read. */
  predicate AllInTime(arrived: Arrivals, methods: Bytes, host: Host) {
    && Enough(arrived.header, 2) && Enough(arrived.methods, |methods|) && Enough(arrived.request, 4)
    && Enough(arrived.address, |AddressOf(host)|) && Enough(arrived.port, 2)
  }

  lemma {:induction false} StubHostReadsBack(net: Net, host: Host, port: nat, tail: Bytes, arrived: nat)
    requires Bindable(host) && port < 0x1_0000 && Enough(arrived, |AddressOf(host)|)
    requires net.inbound == AddressTail(host, port) + tail
    ensures var (r, after) := StubHost(net, AddressType(host), arrived);
            r == Some(host) && after.inbound == PortBytes(port) + tail && after.accepts == net.accepts
  {
    TailInPieces(host, port, tail);
    hide Receive, PortBytes, AddressTail;
    var rest := PortBytes(port) + tail;
    match host {
      case Ipv4(octets) => ReceiveFront(net, octets, rest, arrived);
      case Ipv6(octets) => ReceiveFront(net, octets, rest, arrived);
      case Name(text) =>
        ReceiveFront(net, [|text|], text + rest, 1);
        var (length, after) := Receive(net, 1, 1);
        ReceiveFront(after, text, rest, arrived);
    }
  }

  /** The stub reads greeting, methods and request one after the other. */
  lemma {:induction false} StubByPieces(net: Net, greeting: Bytes, methods: Bytes, header: Bytes, rest: Bytes,
                                        arrived: Arrivals)
    returns (asked: Net)
    requires |greeting| == 2 && greeting[1] == |methods| && |header| == 4 && net.accepts >= 2
    requires net.inbound == greeting + (methods + (header + rest))
    requires Enough(arrived.header, 2) && Enough(arrived.methods, |methods|)
    ensures asked.inbound == header + rest && asked.accepts >= 1
    ensures StubNegotiate(net, false, arrived) == StubRequest(asked, false, arrived)
  {
    hide Receive, StubRequest;
    ReceiveFront(net, greeting, methods + (header + rest), arrived.header);
    var (_, a) := Receive(net, 2, arrived.header);
    ReceiveFront(a, methods, header + rest, arrived.methods);
    var (_, b) := Receive(a, |methods|, arrived.methods);
    asked := Send(b, [VERSION, AUTH_NONE]).1;
  }

  /** The request, up to its port: from there on it depends on one read. */
  lemma {:induction false} StubRequestByPieces(asked: Net, header: Bytes, host: Host, port: nat, tail: Bytes,
                                               arrived: Arrivals)
    returns (last: Net)
    requires |header| == 4 && header[3] == AddressType(host) && asked.accepts >= 1
    requires Bindable(host) && port < 0x1_0000
    requires asked.inbound == header + (AddressTail(host, port) + tail)
    requires Enough(arrived.request, 4) && Enough(arrived.address, |AddressOf(host)|)
    ensures last.inbound == PortBytes(port) + tail
    ensures var (raw, after) := Receive(last, 2, arrived.port);
            raw.Ok? ==>
              && StubRequest(asked, false, arrived).0 == Some((host, BigEndian(raw.value)))
              && StubRequest(asked, false, arrived).1.inbound == after.inbound
  {
    hide Receive, BigEndian, PortBytes, StubHost, StubReply, AddressTail, AddressType, AddressOf;
    ReceiveFront(asked, header, AddressTail(host, port) + tail, arrived.request);
    var (_, d) := Receive(asked, 4, arrived.request);
    StubHostReadsBack(d, host, port, tail, arrived.address);
    last := StubHost(d, header[3], arrived.address).1;
    ReceiveTakes(last, 2, arrived.port);
  }

  lemma BigEndianOfTwo(raw: Bytes)
    requires |raw| == 2
    ensures BigEndian(raw) == PortOf(raw) && BigEndian(raw[..1]) == raw[0]
  {
    assert raw[..1][..0] == [] && BigEndian(raw[..1][..0]) == 0;
    assert BigEndian(raw[..1]) == raw[0];
  }

  lemma RequestIsAddress(host: Host, port: int)
    requires BuildRequest(host, port).Ok? && (host.Ipv4? || host.Ipv6? ==> host.Proper())
    ensures Bindable(host) && 0 <= port < 0x1_0000
    ensures BuildRequest(host, port).value == [VERSION, CMD_CONNECT, 0x00] + AddressBytes(host, port)
  {
    hide EncodeAddress, AddressBytes;
    EncodedIsAddress(host, port);
  }

  lemma RequestSplits(methods: Bytes, host: Host, port: int, tail: Bytes)
    requires (host.Ipv4? || host.Ipv6? ==> host.Proper())
    requires BuildGreeting(methods).Ok? && BuildRequest(host, port).Ok?
    ensures Bindable(host) && 0 <= port < 0x1_0000
    ensures BuildGreeting(methods).value + BuildRequest(host, port).value + tail
         == [VERSION, |methods|]
            + (methods + ([VERSION, CMD_CONNECT, 0x00, AddressType(host)] + (AddressTail(host, port) + tail)))
  {
    RequestIsAddress(host, port);
    var header: Bytes := [VERSION, CMD_CONNECT, 0x00, AddressType(host)];
    var rest := AddressTail(host, port);
    assert BuildGreeting(methods).value == [VERSION, |methods|] + methods;
    var address := AddressBytes(host, port);
    hide EncodeAddress, BuildGreeting, BuildRequest, AddressTail, AddressType;
    assert [VERSION, CMD_CONNECT, 0x00] + address == header + rest;
    Assoc([VERSION, |methods|] + methods, header + rest, tail);
    Assoc([VERSION, |methods|], methods, header + rest + tail);
    Assoc(header, rest, tail);
  }

  /** What the client sends to a stub that selects no authentication, and then `tail`. */
  ghost predicate Asks(net: Net, methods: Bytes, host: Host, port: int, tail: Bytes) {
    && (host.Ipv4? || host.Ipv6? ==> host.Proper())
    && BuildGreeting(methods).Ok? && BuildRequest(host, port).Ok?
    && net.inbound == BuildGreeting(methods).value + BuildRequest(host, port).value + tail
  }

  /** If all but the port comes in time, the destination is the client's, but for the
      port, which depends on that one read. */
  lemma {:induction false} StubUpToPort(net: Net, methods: Bytes, host: Host, port: int, tail: Bytes, arrived: Arrivals)
    returns (last: Net)
    requires Asks(net, methods, host, port, tail) && net.accepts >= 2
    requires AllInTime(arrived.(port := 2), methods, host)
    ensures 0 <= port < 0x1_0000 && last.inbound == PortBytes(port) + tail
    ensures var (raw, after) := Receive(last, 2, arrived.port);
            raw.Ok? ==>
              && StubNegotiate(net, false, arrived).0 == Some((host, BigEndian(raw.value)))
              && StubNegotiate(net, false, arrived).1.inbound == after.inbound
  {
    RequestSplits(methods, host, port, tail);
    assert 1 <= |methods| <= 255;
    hide *;
    var greeting: Bytes, header: Bytes :=
      [VERSION, |methods|], [VERSION, CMD_CONNECT, 0x00, AddressType(host)];
    var asked := StubByPieces(net, greeting, methods, header, AddressTail(host, port) + tail, arrived);
    last := StubRequestByPieces(asked, header, host, port, tail, arrived);
  }

  /** What a negotiation that found a destination has taken off the stream: all of
      each piece that is checked, and some of the methods and of the port. */
  lemma {:induction false} StubTakes(net: Net, arrived: Arrivals) returns (skipped: nat, portSize: nat)
    requires StubNegotiate(net, false, arrived).0.Some? && |net.inbound| >= 2
    ensures skipped <= net.inbound[1] && portSize <= 2
    ensures var (host, after) := (StubNegotiate(net, false, arrived).0.value.0, StubNegotiate(net, false, arrived).1);
            && |net.inbound| == |after.inbound| + 2 + skipped + 4 + (if host.Name? then 1 else 0) + |AddressOf(host)|
                                + portSize
            && Enough(arrived.header, 2) && Enough(arrived.methods, skipped) && Enough(arrived.request, 4)
            && Enough(arrived.address, |AddressOf(host)|) && Enough(arrived.port, portSize)
  {
    var (header, a) := Receive(net, 2, arrived.header);
    assert header.value == net.inbound[..2];
    hide Receive;
    ReceiveTakes(net, 2, arrived.header);
    ReceiveTakes(a, header.value[1], arrived.methods);
    var (methods, b) := Receive(a, header.value[1], arrived.methods);
    skipped := |methods.value|;
    hide StubRequest;
    portSize := StubRequestTakes(Send(b, [VERSION, AUTH_NONE]).1, arrived);
  }

  lemma {:induction false} StubRequestTakes(net: Net, arrived: Arrivals) returns (portSize: nat)
    requires StubRequest(net, false, arrived).0.Some?
    ensures var (host, after) := (StubRequest(net, false, arrived).0.value.0, StubRequest(net, false, arrived).1);
            && portSize <= 2
            && |net.inbound| == |after.inbound| + 4 + (if host.Name? then 1 else 0) + |AddressOf(host)| + portSize
            && Enough(arrived.request, 4) && Enough(arrived.address, |AddressOf(host)|)
            && Enough(arrived.port, portSize)
  {
    hide Receive, BigEndian, StubReply;
    ReceiveTakes(net, 4, arrived.request);
    var (request, d) := Receive(net, 4, arrived.request);
    StubHostTakes(d, request.value[3], arrived.address);
    hide StubHost;
    var (_, e) := StubHost(d, request.value[3], arrived.address);
    ReceiveTakes(e, 2, arrived.port);
    portSize := |Receive(e, 2, arrived.port).0.value|;
  }

  lemma {:induction false} StubHostTakes(net: Net, atyp: byte, arrived: nat)
    ensures var (host, after) := StubHost(net, atyp, arrived);
            host.Some? ==>
              && |net.inbound| == |after.inbound| + (if host.value.Name? then 1 else 0) + |AddressOf(host.value)|
              && Enough(arrived, |AddressOf(host.value)|)
  {
    hide Receive;
    if atyp == ATYP_DOMAINNAME {
      ReceiveTakes(net, 1, 1);
      var (length, after) := Receive(net, 1, 1);
      if length.Ok? && length.value != [] {
        ReceiveTakes(after, length.value[0], arrived);
      }
    } else if atyp == ATYP_IPV4 {
      ReceiveTakes(net, 4, arrived);
      var (raw, after) := Receive(net, 4, arrived);
      assert raw.Ok? && |raw.value| == 4 ==> StubHost(net, atyp, arrived) == (Some(Ipv4(raw.value)), after);
    } else {
      ReceiveTakes(net, 16, arrived);
      var (raw, after) := Receive(net, 16, arrived);
      assert raw.Ok? && |raw.value| == 16 ==> StubHost(net, atyp, arrived) == (Some(Ipv6(raw.value)), after);
    }
  }

  /** The stub decodes the client's greeting and request to the destination the
      client encoded, and leaves what follows them alone, exactly if enough has come in
      at each of its reads. */
  lemma {:induction false} StubUndoesClientIff(net: Net, methods: Bytes, host: Host, port: int, tail: Bytes,
                                               arrived: Arrivals)
    requires Asks(net, methods, host, port, tail) && net.accepts >= 2
    ensures var (target, left) := StubNegotiate(net, false, arrived);
            target == Some((host, port)) && left.inbound == tail <==> AllInTime(arrived, methods, host)
  {
    if AllInTime(arrived, methods, host) {
      var last := StubUpToPort(net, methods, host, port, tail, arrived);
      hide StubNegotiate;
      ReceiveFront(last, PortBytes(port), tail, arrived.port);
      BigEndianOfTwo(PortBytes(port));
      PortReadsBack(port);
    } else if StubNegotiate(net, false, arrived).0 == Some((host, port)) {
      AskedLength(net, methods, host, port, tail);
      hide Asks, StubNegotiate;
      var skipped, portSize := StubTakes(net, arrived);
    }
  }

  lemma AskedLength(net: Net, methods: Bytes, host: Host, port: int, tail: Bytes)
    requires Asks(net, methods, host, port, tail)
    ensures |net.inbound| == 2 + |methods| + 4 + (if host.Name? then 1 else 0) + |AddressOf(host)| + 2 + |tail|
    ensures net.inbound[1] == |methods|
  {
  }

  /** When the last byte of a request comes late, the stub dials the wrong port. */
  lemma {:induction false} LatePortByte(net: Net, methods: Bytes, host: Host, port: int, tail: Bytes, arrived: Arrivals)
    requires Asks(net, methods, host, port, tail) && net.accepts >= 2
    requires AllInTime(arrived.(port := 2), methods, host) && arrived.port == 1
    ensures StubNegotiate(net, false, arrived).0 == Some((host, port / 256))
  {
    var last := StubUpToPort(net, methods, host, port, tail, arrived);
    hide *;
    FirstByte(last, port, tail);
    BigEndianOfTwo(PortBytes(port));
  }

  lemma FirstByte(net: Net, port: nat, tail: Bytes)
    requires port < 0x1_0000 && net.inbound == PortBytes(port) + tail
    ensures Receive(net, 2, 1).0 == Ok(PortBytes(port)[..1]) && PortBytes(port)[0] == port / 256
  {
    assert Front(net.inbound, 2) == PortBytes(port);
    assert Front(PortBytes(port), 1) == PortBytes(port)[..1];
  }

  // --- safety against every server -----------------------------------------------

  /** The message goes out, or its sending fails after some of it. */
  ghost predicate Goes(io: Io, message: Bytes) {
    io == Sent(message) || (io.Torn? && io.data <= message)
  }

  function Greeting(credentials: Credentials): Bytes {
    [VERSION, |credentials.Offered()|] + credentials.Offered()
  }

  /** The message that carries the credentials, if they can be sent. */
  function Secret(credentials: Credentials): Result<Bytes, Failure> {
    if credentials.username.None? || credentials.password.None? then Err(ConfigurationError)
    else BuildUserpassAuth(credentials.username.value, credentials.password.value)
  }

  /** Entry `i` is the credentials: they were offered before, and asked for. */
  ghost predicate SecretOut(credentials: Credentials, log: seq<Io>, i: nat)
    requires i < |log|
  {
    && i == 2 && log[0] == Sent(Greeting(credentials)) && log[1] == Got([VERSION, AUTH_USERNAME_PASSWORD])
    && AUTH_USERNAME_PASSWORD in credentials.Offered()
    && Secret(credentials).Ok? && Goes(log[i], Secret(credentials).value)
  }

  /** The log of a negotiation that allows the request to be sent: the server chose
      no authentication, or accepted the credentials. */
  ghost predicate Cleared(credentials: Credentials, log: seq<Io>) {
    && |log| >= 2 && log[0] == Sent(Greeting(credentials))
    && ((|log| == 2 && log[1] == Got([VERSION, AUTH_NONE]))
        || (|log| == 4 && log[1] == Got([VERSION, AUTH_USERNAME_PASSWORD])
            && Secret(credentials).Ok? && log[2] == Sent(Secret(credentials).value)
            && log[3].Got? && |log[3].data| == 2 && log[3].data[1] == 0x00))
  }

  /** Entry `i` is the CONNECT request, and everything before it allowed it. */
  ghost predicate RequestOut(credentials: Credentials, request: Result<Bytes, Failure>, log: seq<Io>, i: nat)
    requires i < |log|
  {
    request.Ok? && Goes(log[i], request.value) && Cleared(credentials, log[..i])
  }

  /** The only logs an exchange can leave. What goes out first is the greeting; what
      goes out later, in whole or in part, is the credentials after their method was
      both offered and selected, or the request after the way to it was cleared. */
  ghost predicate SafeLog(credentials: Credentials, request: Result<Bytes, Failure>, log: seq<Io>) {
    && |log| <= 9
    && (log != [] ==> Goes(log[0], Greeting(credentials)))
    && (forall i :: 0 < i < |log| && !log[i].Got? ==>
          SecretOut(credentials, log, i) || RequestOut(credentials, request, log, i))
  }

  ghost predicate OnlyReads(log: seq<Io>) {
    forall i :: 0 <= i < |log| ==> log[i].Got?
  }

  /** What the negotiation leaves behind, by how it ended. */
  ghost predicate Negotiated(credentials: Credentials, r: Result<byte, Failure>, before: Net, after: Net,
                             log: seq<Io>) {
    && after.log == before.log + log
    && SafeLog(credentials, Err(ConfigurationError), log)
    && (r.Ok? ==> Cleared(credentials, log) && r.value in credentials.Offered())
    && |after.inbound| <= |before.inbound| <= |after.inbound| + 4
  }

  /** Authentication alone: the credentials go out once, if they are configured, and
      only an accepting answer makes it succeed. */
  lemma {:induction false} AuthenticateSafe(credentials: Credentials, net: Net) returns (log: seq<Io>)
    ensures var (r, after) := Authenticate(credentials, net);
            && after.log == net.log + log && |log| <= 2
            && (log != [] ==> Secret(credentials).Ok? && Goes(log[0], Secret(credentials).value))
            && (|log| == 2 ==> log[0].Sent? && log[1].Got?)
            && (r.Ok? ==> r.value == AUTH_USERNAME_PASSWORD && |log| == 2
                          && |log[1].data| == 2 && log[1].data[1] == 0x00)
            && |after.inbound| <= |net.inbound| <= |after.inbound| + 2
  {
    var (r, after) := Authenticate(credentials, net);
    log := after.log[|net.log|..];
  }

  /** The log of a negotiation from its parts: the greeting, the server's choice, and
      what an authentication that was asked for left behind. */
  lemma {:induction false} NegotiationLogSafe(credentials: Credentials, choice: Io, more: seq<Io>)
    requires choice.Got? && |more| <= 2
    requires more != [] ==> choice == Got([VERSION, AUTH_USERNAME_PASSWORD]) && credentials.username.Some?
    requires more != [] ==> Secret(credentials).Ok? && Goes(more[0], Secret(credentials).value)
    requires |more| == 2 ==> more[1].Got?
    ensures SafeLog(credentials, Err(ConfigurationError), [Sent(Greeting(credentials)), choice] + more)
  {
    hide Secret, Goes, Greeting;
    var log := [Sent(Greeting(credentials)), choice] + more;
    assert Goes(log[0], Greeting(credentials)) by { GoesWhole(Greeting(credentials)); }
    if more != [] {
      assert SecretOut(credentials, log, 2);
    }
    forall i | 0 < i < |log| && !log[i].Got? ensures SecretOut(credentials, log, i) {
      assert i == 2;
    }
  }

  lemma GoesWhole(message: Bytes)
    ensures Goes(Sent(message), message)
  {
  }

  lemma {:induction false} NegotiateSafe(credentials: Credentials, net: Net) returns (log: seq<Io>)
    ensures var (r, after) := Negotiate(credentials, net);
            Negotiated(credentials, r, net, after, log)
  {
    var (failed, sent) := SendBuilt(net, BuildGreeting(credentials.Offered()));
    assert BuildGreeting(credentials.Offered()) == Ok(Greeting(credentials));
    if failed.Some? {
      log := [Torn(Front(Greeting(credentials), net.slips))];
    } else {
      var (raw, chosen) := Read(sent, 2);
      log := [Sent(Greeting(credentials))];
      GoesWhole(Greeting(credentials));
      if raw.Ok? {
        log := ChoiceSafe(credentials, sent);
        assert net.log + [Sent(Greeting(credentials))] + log[1..] == net.log + log;
      }
    }
  }

  lemma {:induction false} ChoiceSafe(credentials: Credentials, sent: Net) returns (log: seq<Io>)
    requires |sent.inbound| >= 2
    ensures var (r, after) := Choose(credentials, sent);
            && |log| >= 2 && log[0] == Sent(Greeting(credentials)) && after.log == sent.log + log[1..]
            && SafeLog(credentials, Err(ConfigurationError), log)
            && (r.Ok? ==> Cleared(credentials, log) && r.value in credentials.Offered())
            && |after.inbound| <= |sent.inbound| <= |after.inbound| + 4
  {
    var (raw, chosen) := Read(sent, 2);
    var choice := Got(raw.value);
    assert raw.value == [raw.value[0], raw.value[1]];
    hide SafeLog, Greeting, Secret, Authenticate, Goes;
    var more: seq<Io> := [];
    if raw.value[0] == VERSION && raw.value[1] == AUTH_USERNAME_PASSWORD {
      more := AuthenticateSafe(credentials, chosen);
      if more != [] { SecretNeedsUser(credentials); }
    }
    NegotiationLogSafe(credentials, choice, more);
    log := [Sent(Greeting(credentials)), choice] + more;
    assert log[1..] == [choice] + more;
    assert sent.log + [choice] + more == sent.log + log[1..];
  }

  lemma SecretNeedsUser(credentials: Credentials)
    ensures Secret(credentials).Ok? ==> credentials.username.Some?
  {
  }

  /** A reply is read without sending, and takes at most 262 bytes. */
  lemma {:induction false} ReplyOnlyReads(net: Net) returns (log: seq<Io>)
    ensures var (r, after) := ReadReply(net);
            && after.log == net.log + log && |log| <= 4 && OnlyReads(log)
            && |after.inbound| <= |net.inbound| <= |after.inbound| + 262
  {
    hide ReadBoundHost, PortOf;
    var (header, after) := Read(net, 4);
    log := [];
    if header.Ok? {
      log := [Got(header.value)];
      if header.value[0] == VERSION {
        var more := BoundHostOnlyReads(after, header.value[3]);
        log := log + more;
        var (host, next) := ReadBoundHost(after, header.value[3]);
        if host.Ok? {
          var (port, end) := Read(next, 2);
          if port.Ok? { log := log + [Got(port.value)]; }
        }
      }
    }
  }

  lemma {:induction false} BoundHostOnlyReads(net: Net, atyp: byte) returns (log: seq<Io>)
    ensures var (r, after) := ReadBoundHost(net, atyp);
            && after.log == net.log + log && |log| <= 2 && OnlyReads(log)
            && |after.inbound| <= |net.inbound| <= |after.inbound| + 256
  {
    var (r, after) := ReadBoundHost(net, atyp);
    log := after.log[|net.log|..];
  }

  /** Against any byte stream from the server: the log of the exchange is safe, a
      success carries an offered method and reply code 0, and no more than 266
      bytes are ever read. */
  lemma {:induction false} SafeAgainstEveryServer(credentials: Credentials, host: Host, port: int, net: Net)
    returns (log: seq<Io>)
    ensures var (r, after) := Establish(credentials, host, port, net);
            && after.log == net.log + log
            && SafeLog(credentials, BuildRequest(host, port), log)
            && (r.Ok? ==> r.value.selected in credentials.Offered() && r.value.reply.code == 0x00)
            && |after.inbound| <= |net.inbound| <= |after.inbound| + 266
  {
    hide Negotiate, Request, SafeLog, Cleared, OnlyReads, BuildRequest, Credentials.Offered;
    var (selected, negotiated) := Negotiate(credentials, net);
    log := NegotiateSafe(credentials, net);
    SafeWithoutRequest(credentials, BuildRequest(host, port), log);
    if selected.Ok? {
      assert Establish(credentials, host, port, net) == Request(host, port, selected.value, negotiated);
      assert Cleared(credentials, log) && selected.value in credentials.Offered();
      hide *;
      var more := RequestSends(host, port, selected.value, negotiated);
      if more != [] {
        RequestLogSafe(credentials, BuildRequest(host, port), log, more);
        assert net.log + log + more == net.log + (log + more);
        log := log + more;
      }
    }
  }

  /** A log that is safe before any request may be sent is safe beside any request. */
  lemma SafeWithoutRequest(credentials: Credentials, request: Result<Bytes, Failure>, log: seq<Io>)
    requires SafeLog(credentials, Err(ConfigurationError), log)
    ensures SafeLog(credentials, request, log)
  {
  }

  /** The request goes out once, and nothing is sent after it. */
  lemma {:induction false} RequestSends(host: Host, port: int, selected: byte, net: Net) returns (more: seq<Io>)
    ensures var (r, after) := Request(host, port, selected, net);
            && after.log == net.log + more
            && (more == [] || (BuildRequest(host, port).Ok? && 0 < |more| <= 5 && OnlyReads(more[1..])
                               && Goes(more[0], BuildRequest(host, port).value)))
            && (r.Ok? ==> r.value.selected == selected && r.value.reply.code == 0x00
                          && more != [] && more[0].Sent? && after.accepts + 1 == net.accepts)
            && |after.inbound| <= |net.inbound| <= |after.inbound| + 262
  {
    hide BuildRequest, ReadReply, OnlyReads;
    var (failed, sent) := SendBuilt(net, BuildRequest(host, port));
    more := [];
    if failed.None? {
      var answer := ReplyOnlyReads(sent);
      ReplyKeepsAccepts(sent);
      more := [Sent(BuildRequest(host, port).value)] + answer;
      assert more[1..] == answer;
    } else if BuildRequest(host, port).Ok? {
      more := [Torn(Front(BuildRequest(host, port).value, net.slips))];
      assert more[1..] == [];
      NothingIsOnlyReads();
    }
  }

  lemma ReplyKeepsAccepts(net: Net)
    ensures ReadReply(net).1.accepts == net.accepts
  {
  }

  lemma NothingIsOnlyReads()
    ensures OnlyReads([])
  {
  }

  /** Appending the request and the reads of its reply to a negotiation's log. */
  lemma {:induction false} RequestLogSafe(credentials: Credentials, request: Result<Bytes, Failure>,
                                          log: seq<Io>, more: seq<Io>)
    requires SafeLog(credentials, Err(ConfigurationError), log) && Cleared(credentials, log)
    requires request.Ok? && 0 < |more| <= 5 && Goes(more[0], request.value) && OnlyReads(more[1..])
    ensures SafeLog(credentials, request, log + more)
  {
    hide Goes, Secret, Greeting;
    var all := log + more;
    assert all[..|log|] == log && all[|log|] == more[0];
    assert forall i :: |log| < i < |all| ==> all[i] == more[1..][i - |log| - 1];
    assert RequestOut(credentials, request, all, |log|);
    forall i | 0 < i < |all| && !all[i].Got?
      ensures SecretOut(credentials, all, i) || RequestOut(credentials, request, all, i)
    {
      if i < |log| {
        assert all[i] == log[i] && SecretOut(credentials, log, i);
      }
    }
  }

  // --- exactly when the exchange succeeds -------------------------------------------

  /** Everything a server sends that grants the tunnel. */
  datatype Grant = Grant(selected: byte, authVersion: byte, reserved: byte, address: Host, port: nat) {
    predicate Proper() {
      && (selected == AUTH_NONE || selected == AUTH_USERNAME_PASSWORD)
      && Bindable(address) && port < 0x1_0000
    }

    function Script(): Bytes
      requires Proper()
    {
      [VERSION, selected] + (if selected == AUTH_USERNAME_PASSWORD then [authVersion, 0x00] else [])
      + ReplyBytes(0x00, reserved, AddressBytes(address, port))
    }

    function Outcome(): Socks5Result {
      Socks5Result(selected, Reply(0x00, Bound(address), port))
    }
  }

  /** What the client needs of its own side to complete a grant: credentials it
      can send if they are asked for, a request it can build, and a connection
      that survives the sends. */
  predicate CanComplete(credentials: Credentials, host: Host, port: int, net: Net, selected: byte) {
    && BuildRequest(host, port).Ok?
    && (if selected == AUTH_USERNAME_PASSWORD
        then credentials.username.Some? && credentials.password.Some? && net.accepts >= 3
             && BuildUserpassAuth(credentials.username.value, credentials.password.value).Ok?
        else net.accepts >= 2)
  }

  /** A granting script is accepted, and the tunnel bytes behind it are untouched. */
  lemma {:induction false} ScriptGrants(credentials: Credentials, host: Host, port: int, net: Net, g: Grant,
                                        tail: Bytes)
    requires g.Proper() && net.inbound == g.Script() + tail
    requires CanComplete(credentials, host, port, net, g.selected)
    ensures Establish(credentials, host, port, net).0 == Ok(g.Outcome())
    ensures Establish(credentials, host, port, net).1.inbound == tail
  {
    var reply := ReplyBytes(0x00, g.reserved, AddressBytes(g.address, g.port));
    ScriptSplits(g, tail);
    hide Negotiate, ReadReply, ReplyBytes, AddressBytes, BuildRequest, BuildUserpassAuth, Grant.Script;
    NegotiationGranted(credentials, net, g, reply + tail);
    var (selected, negotiated) := Negotiate(credentials, net);
    var (_, asked) := SendBuilt(negotiated, BuildRequest(host, port));
    ReplyReadsBack(asked, 0x00, g.reserved, g.address, g.port, tail);
  }

  lemma ScriptSplits(g: Grant, tail: Bytes)
    requires g.Proper()
    ensures g.Script() + tail
         == [VERSION, g.selected] + ((if g.selected == AUTH_USERNAME_PASSWORD then [g.authVersion, 0x00] else [])
            + (ReplyBytes(0x00, g.reserved, AddressBytes(g.address, g.port)) + tail))
  {
    hide ReplyBytes, AddressBytes;
    var auth: Bytes := if g.selected == AUTH_USERNAME_PASSWORD then [g.authVersion, 0x00] else [];
    var reply := ReplyBytes(0x00, g.reserved, AddressBytes(g.address, g.port));
    Assoc([VERSION, g.selected] + auth, reply, tail);
    Assoc([VERSION, g.selected], auth, reply + tail);
  }

  lemma {:induction false} NegotiationGranted(credentials: Credentials, net: Net, g: Grant, rest: Bytes)
    requires g.Proper()
    requires net.inbound
          == [VERSION, g.selected]
             + ((if g.selected == AUTH_USERNAME_PASSWORD then [g.authVersion, 0x00] else []) + rest)
    requires if g.selected == AUTH_USERNAME_PASSWORD
             then credentials.username.Some? && credentials.password.Some? && net.accepts >= 3
                  && BuildUserpassAuth(credentials.username.value, credentials.password.value).Ok?
             else net.accepts >= 2
    ensures Negotiate(credentials, net).0 == Ok(g.selected)
    ensures Negotiate(credentials, net).1.inbound == rest && Negotiate(credentials, net).1.accepts >= 1
  {
    var auth: Bytes := if g.selected == AUTH_USERNAME_PASSWORD then [g.authVersion, 0x00] else [];
    var (_, sent) := SendBuilt(net, BuildGreeting(credentials.Offered()));
    ReadFront(sent, [VERSION, g.selected], auth + rest);
    var (_, chosen) := Read(sent, 2);
    if g.selected == AUTH_USERNAME_PASSWORD {
      var (_, shown) :=
        SendBuilt(chosen, BuildUserpassAuth(credentials.username.value, credentials.password.value));
      ReadFront(shown, auth, rest);
    } else {
      assert [] + rest == rest;
    }
  }

  /** A reply that was read had the form of a reply. */
  lemma {:induction false} ReplyHadForm(net: Net) returns (reserved: byte, address: Host, port: nat)
    requires ReadReply(net).0.Ok?
    ensures Bindable(address) && port < 0x1_0000
    ensures ReadReply(net).0.value == Reply(net.inbound[1], Bound(address), port)
    ensures net.inbound == ReplyBytes(net.inbound[1], reserved, AddressBytes(address, port)) + ReadReply(net).1.inbound
  {
    hide Read, ReadBoundHost;
    var h := ReadTook(net, 4);
    reserved := h[2];
    var (_, after) := Read(net, 4);
    var (host, next) := ReadBoundHost(after, h[3]);
    var raw := ReadTook(next, 2);
    var (_, end) := Read(next, 2);
    PortHadForm(raw);
    port := PortOf(raw);
    address := BoundHostHadForm(after, h[3], port, end.inbound);
    assert h[0] == VERSION && net.inbound[1] == h[1];
    assert ReadReply(net) == (Ok(Reply(h[1], host.value, port)), end);
    hide *;
    assert h == [VERSION, h[1], h[2], AddressType(address)];
    ReplySplits(h[1], reserved, address, port, end.inbound);
  }

  lemma PortHadForm(raw: Bytes)
    requires |raw| == 2
    ensures PortOf(raw) < 0x1_0000 && PortBytes(PortOf(raw)) == raw
  {
  }

  /** What `ReadBoundHost` accepted is the front of an encoded address. */
  lemma {:induction false} BoundHostHadForm(net: Net, atyp: byte, port: nat, end: Bytes) returns (address: Host)
    requires ReadBoundHost(net, atyp).0.Ok? && port < 0x1_0000
    requires ReadBoundHost(net, atyp).1.inbound == PortBytes(port) + end
    ensures Bindable(address) && ReadBoundHost(net, atyp).0.value == Bound(address)
    ensures atyp == AddressType(address) && net.inbound == AddressTail(address, port) + end
  {
    hide PortBytes, Read;
    var raw := PortBytes(port);
    if atyp == ATYP_IPV4 {
      var octets := ReadTook(net, 4);
      address := Ipv4(octets);
      Assoc(octets, raw, end);
    } else if atyp == ATYP_IPV6 {
      var octets := ReadTook(net, 16);
      address := Ipv6(octets);
      Assoc(octets, raw, end);
    } else {
      var length := ReadTook(net, 1);
      var text := ReadTook(Read(net, 1).1, length[0]);
      address := Name(text);
      assert length == [|text|];
      Assoc(text, raw, end);
      Assoc(length, text + raw, end);
    }
  }

  /** A read that returned took the front of the stream. */
  lemma ReadTook(net: Net, n: nat) returns (front: Bytes)
    requires Read(net, n).0.Ok?
    ensures Read(net, n).0 == Ok(front) && |front| == n && net.inbound == front + Read(net, n).1.inbound
  {
    front := net.inbound[..n];
  }

  /** Every success comes from a granting script the client could complete. */
  lemma {:induction false} SuccessHadScript(credentials: Credentials, host: Host, port: int, net: Net)
    returns (g: Grant)
    requires Establish(credentials, host, port, net).0.Ok?
    ensures g.Proper() && CanComplete(credentials, host, port, net, g.selected)
    ensures net.inbound == g.Script() + Establish(credentials, host, port, net).1.inbound
    ensures Establish(credentials, host, port, net).0 == Ok(g.Outcome())
  {
    hide Negotiate, Request, ReplyBytes, AddressBytes, BuildRequest, BuildUserpassAuth, Bound, Bindable;
    var (selected, negotiated) := Negotiate(credentials, net);
    var authVersion := NegotiationHadScript(credentials, net);
    var reserved, address, bound := RequestHadForm(host, port, selected.value, negotiated);
    g := Grant(selected.value, authVersion, reserved, address, bound);
    var (_, end) := Request(host, port, selected.value, negotiated);
    ScriptSplits(g, end.inbound);
    Assoc([VERSION, selected.value],
          if selected.value == AUTH_USERNAME_PASSWORD then [authVersion, 0x00] else [], negotiated.inbound);
  }

  lemma {:induction false} RequestHadForm(host: Host, port: int, selected: byte, net: Net)
    returns (reserved: byte, address: Host, bound: nat)
    requires Request(host, port, selected, net).0.Ok?
    ensures BuildRequest(host, port).Ok? && net.accepts > 0 && Bindable(address) && bound < 0x1_0000
    ensures Request(host, port, selected, net).0
         == Ok(Socks5Result(selected, Reply(0x00, Bound(address), bound)))
    ensures net.inbound
         == ReplyBytes(0x00, reserved, AddressBytes(address, bound)) + Request(host, port, selected, net).1.inbound
  {
    hide ReadReply, BuildRequest, ReplyBytes, AddressBytes, Bound, Bindable;
    var (_, asked) := SendBuilt(net, BuildRequest(host, port));
    reserved, address, bound := ReplyHadForm(asked);
  }

  lemma {:induction false} NegotiationHadScript(credentials: Credentials, net: Net) returns (authVersion: byte)
    requires Negotiate(credentials, net).0.Ok?
    ensures var (r, after) := Negotiate(credentials, net);
            && (r.value == AUTH_NONE || r.value == AUTH_USERNAME_PASSWORD)
            && net.inbound == [VERSION, r.value]
                 + (if r.value == AUTH_USERNAME_PASSWORD then [authVersion, 0x00] else []) + after.inbound
            && (if r.value == AUTH_USERNAME_PASSWORD
                then credentials.username.Some? && credentials.password.Some? && net.accepts == after.accepts + 2
                     && BuildUserpassAuth(credentials.username.value, credentials.password.value).Ok?
                else net.accepts == after.accepts + 1)
  {
    var (r, after) := Negotiate(credentials, net);
    var (_, sent) := SendBuilt(net, BuildGreeting(credentials.Offered()));
    var (raw, chosen) := Read(sent, 2);
    assert net.inbound == [VERSION, raw.value[1]] + chosen.inbound;
    if r.value == AUTH_USERNAME_PASSWORD {
      authVersion := chosen.inbound[0];
      assert chosen.inbound == [authVersion, 0x00] + after.inbound;
    } else {
      authVersion := 0;
    }
  }

  /** The handshake succeeds, leaving `tail`, exactly when the stream is a granting
      script that the client can complete, followed by `tail`. */
  lemma {:induction false} SucceedsIffGranted(credentials: Credentials, host: Host, port: int, net: Net,
                                              outcome: Socks5Result, tail: Bytes)
    ensures (exists g: Grant :: g.Proper() && CanComplete(credentials, host, port, net, g.selected)
                                && net.inbound == g.Script() + tail && outcome == g.Outcome())
       <==> (Establish(credentials, host, port, net).0 == Ok(outcome)
             && Establish(credentials, host, port, net).1.inbound == tail)
  {
    hide Establish;
    if g: Grant :| g.Proper() && CanComplete(credentials, host, port, net, g.selected)
                   && net.inbound == g.Script() + tail && outcome == g.Outcome() {
      ScriptGrants(credentials, host, port, net, g, tail);
    }
    if Establish(credentials, host, port, net).0 == Ok(outcome)
       && Establish(credentials, host, port, net).1.inbound == tail {
      var g := SuccessHadScript(credentials, host, port, net);
    }
  }

  /** Client and stub proxy together: the tunnel is granted exactly when the stub is
      not told to refuse, and the tunnel bytes are left in place. */
  lemma {:induction false} ClientMeetsStub(credentials: Credentials, host: Host, port: int, net: Net, fail: bool,
                                           tail: Bytes)
    requires BuildRequest(host, port).Ok? && net.accepts >= 2
    requires net.inbound == [VERSION, AUTH_NONE] + StubReply(fail) + tail
    ensures Establish(credentials, host, port, net).0
         == (var result := Socks5Result(AUTH_NONE, Reply(if fail then 0x05 else 0x00, BoundIpv4([0, 0, 0, 0]), 0));
             if fail then Err(Refused(Socks5(result))) else Ok(result))
    ensures Establish(credentials, host, port, net).1.inbound == tail
  {
    var reply := StubReply(fail);
    assert net.inbound == [VERSION, AUTH_NONE] + ([] + (reply + tail));
    NegotiationGranted(credentials, net, Grant(AUTH_NONE, 0, 0, Ipv4([0, 0, 0, 0]), 0), reply + tail);
    var (_, negotiated) := Negotiate(credentials, net);
    hide Negotiate;
    var (_, asked) := SendBuilt(negotiated, BuildRequest(host, port));
    ReplyReadsBack(asked, if fail then 0x05 else 0x00, 0x00, Ipv4([0, 0, 0, 0]), 0, tail);
  }

  /** An established tunnel has sent the greeting, the credentials if they were asked
      for, and the request, and nothing else. */
  lemma {:induction false} GrantedSends(credentials: Credentials, host: Host, port: int, net: Net)
    requires Establish(credentials, host, port, net).0.Ok?
    ensures BuildRequest(host, port).Ok?
    ensures var (result, after) := Establish(credentials, host, port, net);
            var asked := result.value.selected == AUTH_USERNAME_PASSWORD;
            && (asked ==> Secret(credentials).Ok?)
            && after.accepts + (if asked then 3 else 2) == net.accepts
            && SentBytes(after.log)
               == SentBytes(net.log)
                  + (Greeting(credentials) + (if asked then Secret(credentials).value else []))
                  + BuildRequest(host, port).value
  {
    hide Negotiate, Request, BuildRequest, OnlyReads, SentBytes, Secret, Greeting;
    var (selected, negotiated) := Negotiate(credentials, net);
    var more := RequestSends(host, port, selected.value, negotiated);
    var log := NegotiationSends(credentials, net);
    RequestBytes(more, BuildRequest(host, port).value);
    SentBytesOfBoth(net.log, log);
    SentBytesOfBoth(negotiated.log, more);
  }

  lemma {:induction false} RequestBytes(more: seq<Io>, request: Bytes)
    requires more != [] && more[0] == Sent(request) && OnlyReads(more[1..])
    ensures SentBytes(more) == request
  {
    ReadsSendNothing(more[1..]);
    assert more == [more[0]] + more[1..];
    SentBytesOfBoth([more[0]], more[1..]);
    assert SentBytes([more[0]]) == request;
  }

  /** What a negotiation that succeeds adds to the log. */
  lemma {:induction false} NegotiationSends(credentials: Credentials, net: Net) returns (log: seq<Io>)
    requires Negotiate(credentials, net).0.Ok?
    ensures var (selected, after) := Negotiate(credentials, net);
            var asked := selected.value == AUTH_USERNAME_PASSWORD;
            && (asked ==> Secret(credentials).Ok?)
            && after.log == net.log + log && after.accepts + (if asked then 2 else 1) == net.accepts
            && SentBytes(log) == Greeting(credentials) + (if asked then Secret(credentials).value else [])
  {
    hide SentBytes, Authenticate;
    var (_, sent) := SendBuilt(net, BuildGreeting(credentials.Offered()));
    var (raw, chosen) := Read(sent, 2);
    var first := [Sent(Greeting(credentials)), Got(raw.value)];
    assert chosen.log == net.log + first;
    assert OnlyReads(first[1..]);
    RequestBytes(first, Greeting(credentials));
    log := first;
    if raw.value[1] == AUTH_USERNAME_PASSWORD {
      var more := AuthenticationSends(credentials, chosen);
      log := first + more;
      assert net.log + first + more == net.log + log;
      SentBytesOfBoth(first, more);
    } else {
      assert Greeting(credentials) + [] == Greeting(credentials);
    }
  }

  lemma {:induction false} AuthenticationSends(credentials: Credentials, net: Net) returns (log: seq<Io>)
    requires Authenticate(credentials, net).0.Ok?
    ensures Authenticate(credentials, net).0 == Ok(AUTH_USERNAME_PASSWORD) && Secret(credentials).Ok?
    ensures var after := Authenticate(credentials, net).1;
            after.log == net.log + log && after.accepts + 1 == net.accepts
    ensures SentBytes(log) == Secret(credentials).value
  {
    hide SentBytes, BuildUserpassAuth;
    var (_, sent) := SendBuilt(net, Secret(credentials));
    var (raw, after) := Read(sent, 2);
    log := [Sent(Secret(credentials).value), Got(raw.value)];
    assert after.log == net.log + log;
    assert OnlyReads(log[1..]);
    RequestBytes(log, Secret(credentials).value);
  }
}
