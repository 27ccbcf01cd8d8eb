/**
 The headline flow: the client opens a tunnel through the stub proxy and makes a
 round trip to the echo backend. Three parties are joined here: what the stub reads
 is what the client sent, what it leaves unread is what the relay carries, and what
 the client reads is the stub's answer and then whatever the relay delivered.
 */
module Session {
  import opened Basics
  import opened Connection
  import opened Reports
  import Client = ProxyClient
  import Http = HttpConnect
  import Relay
  import Socks = Socks5

  /** The client's connection once the session is over. */
  function AfterSession(config: Client.Config, client: Net, payload: Bytes): (Result<Bytes, Failure>, Net) {
    Client.Roundtrip(config.Handshake(client).1, payload)
  }

  /** The relay run of a session: it starts fresh, and the client sends no more than
      the payload into it. */
  ghost predicate Relays(s: Relay.System, schedule: seq<Relay.Action>, payload: Bytes) {
    Relay.Fresh(s) && Relay.Runs(s, schedule) && Relay.Run(s, schedule).sent <= payload
  }

  /** The relay run of a session that nothing disturbed and that went on as long as
      anything could happen, in a relay that can hold the payload. */
  ghost predicate RelaysToTheEnd(s: Relay.System, schedule: seq<Relay.Action>, payload: Bytes) {
    && Relay.Fresh(s) && |payload| <= Relay.Buffering(s, s.Last())
    && (forall k :: 0 <= k < |s.links| ==> s.links[k].capacity > 0)
    && Relay.RoundtripRuns(s, payload, schedule) && Relay.Runs(s, schedule)
    && Relay.AtRest(Relay.Run(s, schedule), payload)
  }

  /** Three parties, joined at their streams. `answer` is what the stub replies. */
  ghost predicate Joined(config: Client.Config, client: Net, stub: Net, answer: Bytes,
                         s: Relay.System, schedule: seq<Relay.Action>, payload: Bytes) {
    && Relays(s, schedule, payload)
    && client.log == [] && client.inbound == answer + Relay.Run(s, schedule).received
    && stub.inbound == SentBytes(AfterSession(config, client, payload).1.log)
  }

  /** Over a granted tunnel a round trip sends the payload and returns the payload or
      an error, whatever the relay did. */
  lemma {:induction false} TunnelIsFaithful(connected: Net, s: Relay.System, schedule: seq<Relay.Action>,
                                            payload: Bytes)
    requires Relays(s, schedule, payload) && connected.accepts > 0
    requires connected.inbound == Relay.Run(s, schedule).received
    ensures var (back, after) := Client.Roundtrip(connected, payload);
            && (back.Ok? <==> Relay.Run(s, schedule).received == payload)
            && (back.Ok? ==> back.value == payload)
            && SentBytes(after.log) == SentBytes(connected.log) + payload
  {
    Relay.RelayFidelity(s, schedule);
    var delivered := Relay.Run(s, schedule).received;
    assert delivered <= Relay.Run(s, schedule).sent <= payload;
    hide Relay.Run, Relay.Fresh, Relay.Runs, SentBytes;
    var (_, sent) := Send(connected, payload);
    RoundtripSends(connected.log, sent, payload);
    if |payload| <= |delivered| {
      assert delivered == payload && delivered[..|payload|] == payload;
    }
  }

  lemma {:induction false} RoundtripSends(log: seq<Io>, sent: Net, payload: Bytes)
    requires sent.log == log + [Sent(payload)]
    ensures SentBytes(Read(sent, |payload|).1.log) == SentBytes(log) + payload
  {
    SentBytesOfBoth(log, [Sent(payload)]);
    assert SentBytes([Sent(payload)]) == payload;
    var (back, after) := Read(sent, |payload|);
    if back.Ok? {
      SentBytesOfBoth(sent.log, [Got(back.value)]);
      assert SentBytes([Got(back.value)]) == [];
    }
  }

  /** An undisturbed relay run delivers the whole payload. */
  lemma {:induction false} RelayDelivers(s: Relay.System, schedule: seq<Relay.Action>, payload: Bytes)
    requires RelaysToTheEnd(s, schedule, payload)
    ensures Relays(s, schedule, payload) && Relay.Run(s, schedule).received == payload
  {
    Relay.FreshIsUnderway(s, payload);
    Relay.RoundtripCompletes(s, payload, schedule);
  }

  /** Through the CONNECT stub: the tunnel opens; the stub dials exactly the origin the
      client asked for, if that host can be carried at all, and leaves exactly the
      payload to the relay; and the round trip returns the payload or an error. */
  lemma {:induction false} ThroughHttpStub(config: Client.Config, client: Net, stub: Net,
                                           s: Relay.System, schedule: seq<Relay.Action>, payload: Bytes)
    requires config.mode == Client.HttpConnect && Http.BuildRequest(config.origin, config.originPort).Ok?
    requires client.accepts >= 2 && stub.accepts > 0
    requires Joined(config, client, stub, Http.StubReply(false), s, schedule, payload)
    ensures config.Handshake(client).0 == Ok(Report.Http(Response(200, "Connection Established")))
    ensures var (target, left) := Http.StubNegotiate(stub, false);
            && (target == Http.Target(config.origin, config.originPort) <==> Http.Carriable(config.origin))
            && (Http.Carriable(config.origin) ==> left.inbound == payload)
    ensures var (back, _) := AfterSession(config, client, payload);
            && (back.Ok? <==> Relay.Run(s, schedule).received == payload)
            && (back.Ok? ==> back.value == payload)
  {
    var delivered := Relay.Run(s, schedule).received;
    hide Http.StubReply, Http.Establish, Http.BuildRequest, Http.StubNegotiate, Http.Carriable, Relay.Run, Relays,
         SentBytes, Client.Roundtrip;
    Http.ClientMeetsStub(config.origin, config.originPort, client, false, delivered);
    Http.EstablishedSends(config.origin, config.originPort, client);
    var (_, connected) := config.Handshake(client);
    TunnelIsFaithful(connected, s, schedule, payload);
    NothingSent();
    var request := Http.BuildRequest(config.origin, config.originPort).value;
    assert [] + request == request;
    Http.StubUndoesRequestIff(config.origin, config.originPort, stub, payload);
    if Http.Carriable(config.origin) {
      Http.StubUndoesRequest(config.origin, config.originPort, stub, payload);
    }
  }

  lemma NothingAround(data: Bytes)
    ensures [] + (data + []) == data
  {
  }

  lemma NothingSent()
    ensures SentBytes([]) == []
  {
  }

  /** Through the SOCKS5 stub, likewise, for every destination the client can encode;
      here it takes that the request comes in whole. */
  lemma {:induction false} ThroughSocksStub(config: Client.Config, client: Net, stub: Net, arrived: Socks.Arrivals,
                                            s: Relay.System, schedule: seq<Relay.Action>, payload: Bytes)
    requires config.mode == Client.Socks5Proxy && Socks.BuildRequest(config.originHost, config.originPort).Ok?
    requires config.originHost.Ipv4? || config.originHost.Ipv6? ==> config.originHost.Proper()
    requires client.accepts >= 3 && stub.accepts >= 2
    requires Joined(config, client, stub, [Socks.VERSION, Socks.AUTH_NONE] + Socks.StubReply(false),
                    s, schedule, payload)
    ensures config.Handshake(client).0.Ok?
    ensures var (target, left) := Socks.StubNegotiate(stub, false, arrived);
            target == Some((config.originHost, config.originPort)) && left.inbound == payload
            <==> Socks.AllInTime(arrived, config.credentials.Offered(), config.originHost)
    ensures var (back, _) := AfterSession(config, client, payload);
            && (back.Ok? <==> Relay.Run(s, schedule).received == payload)
            && (back.Ok? ==> back.value == payload)
  {
    var host, port, delivered := config.originHost, config.originPort, Relay.Run(s, schedule).received;
    assert Socks.BuildGreeting(config.credentials.Offered()) == Ok(Socks.Greeting(config.credentials));
    hide Socks.StubReply, Socks.Establish, Socks.BuildRequest, Socks.StubNegotiate, Relay.Run, Relays, SentBytes,
         Client.Roundtrip, Socks.Greeting, Socks.Secret, Socks.BuildGreeting, Socks.AllInTime;
    Socks.ClientMeetsStub(config.credentials, host, port, client, false, delivered);
    Socks.GrantedSends(config.credentials, host, port, client);
    var (_, connected) := config.Handshake(client);
    TunnelIsFaithful(connected, s, schedule, payload);
    NothingSent();
    var greeting := Socks.Greeting(config.credentials);
    NothingAround(greeting);
    Socks.StubUndoesClientIff(stub, config.credentials.Offered(), host, port, payload, arrived);
  }

  /** The round trip of a session whose relay is undisturbed and can hold the payload
      always ends, and ends with exactly the payload: CONNECT and SOCKS5. */
  lemma {:induction false} RoundtripThroughStub(config: Client.Config, client: Net, stub: Net, answer: Bytes,
                                                s: Relay.System, schedule: seq<Relay.Action>, payload: Bytes)
    requires RelaysToTheEnd(s, schedule, payload) && client.accepts >= 3 && stub.accepts >= 2
    requires Joined(config, client, stub, answer, s, schedule, payload)
    requires || (config.mode == Client.HttpConnect && answer == Http.StubReply(false)
                 && Http.BuildRequest(config.origin, config.originPort).Ok?)
             || (config.mode == Client.Socks5Proxy
                 && answer == [Socks.VERSION, Socks.AUTH_NONE] + Socks.StubReply(false)
                 && Socks.BuildRequest(config.originHost, config.originPort).Ok?
                 && (config.originHost.Ipv4? || config.originHost.Ipv6? ==> config.originHost.Proper()))
    ensures AfterSession(config, client, payload).0 == Ok(payload)
  {
    hide *;
    RelayDelivers(s, schedule, payload);
    if config.mode == Client.HttpConnect {
      ThroughHttpStub(config, client, stub, s, schedule, payload);
    } else {
      ThroughSocksStub(config, client, stub, Socks.Arrivals(2, 255, 4, 255, 2), s, schedule, payload);
    }
  }

  /** Such sessions exist, for every configuration, payload and answer of the stub,
      over every relay that can hold the payload. */
  lemma {:induction false} SessionsExist(config: Client.Config, answer: Bytes, s: Relay.System, payload: Bytes)
    returns (client: Net, stub: Net, schedule: seq<Relay.Action>)
    requires Relay.Fresh(s) && |payload| <= Relay.Buffering(s, s.Last())
    requires forall k :: 0 <= k < |s.links| ==> s.links[k].capacity > 0
    ensures RelaysToTheEnd(s, schedule, payload) && Joined(config, client, stub, answer, s, schedule, payload)
    ensures client.accepts >= 3 && stub.accepts >= 2
  {
    hide AfterSession, Relay.Run, Relay.Runs, Relay.RoundtripRuns, Relay.AtRest, SentBytes;
    Relay.FreshIsUnderway(s, payload);
    schedule := Relay.RestIsReachable(s, payload);
    RelayDelivers(s, schedule, payload);
    client := Net(answer + payload, Closed, 3, 0, []);
    stub := Net(SentBytes(AfterSession(config, client, payload).1.log), Closed, 2, 0, []);
  }
}
