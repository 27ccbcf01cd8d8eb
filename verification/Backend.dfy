/**
 The echo backend's threads and counters. The accept loop, every connection handler
 and a stop request take steps in any order; each locked block is one step, so a
 `stats` snapshot is the state between two steps.
 */
module Backend {
  import opened Basics

  /** A connection handler, between two of its steps. */
  datatype Handler =
    | Reading
    | Received(n: nat)               // a chunk was read and is not counted yet
    | Sending(n: nat)                // it is counted and being sent back
    | Sent(n: nat)                   // it was sent back and that is not counted yet
    | EndedByEof
    | EndedByFailure(n: nat, k: nat) // the echo of n counted bytes failed after k of them
    | Ended                          // a read failed, or the stop request was seen

  /** The accept loop. */
  datatype Acceptor = Waiting | Accepted(peer: string) | Spawning | Gone

  /** `taken` and `returned` are what really crossed the connections; the other
      numbers are the ones the backend reports. */
  datatype State = State(acceptor: Acceptor, handlers: seq<Handler>, stopping: bool,
                         connections: nat, peers: seq<string>, received: nat, echoed: nat,
                         taken: nat, returned: nat)

  datatype Action =
    | Accept(peer: string)
    | CountConnection
    | Spawn
    | AcceptorEnds
    | Receive(h: nat, n: nat)
    | CountReceived(h: nat)
    | SendAll(h: nat)
    | SendFails(h: nat, k: nat)      // sendall raises after k bytes went out
    | CountEchoed(h: nat)
    | Eof(h: nat)
    | HandlerEnds(h: nat)
    | Stop

  predicate Enabled(s: State, a: Action) {
    match a
    case Accept(_) => s.acceptor.Waiting?
    case CountConnection => s.acceptor.Accepted?
    case Spawn => s.acceptor.Spawning?
    case AcceptorEnds => s.acceptor.Waiting?
    case Receive(h, n) => h < |s.handlers| && s.handlers[h].Reading? && 0 < n <= RECV_CHUNK
    case CountReceived(h) => h < |s.handlers| && s.handlers[h].Received?
    case SendAll(h) => h < |s.handlers| && s.handlers[h].Sending?
    case SendFails(h, k) => h < |s.handlers| && s.handlers[h].Sending? && k <= s.handlers[h].n
    case CountEchoed(h) => h < |s.handlers| && s.handlers[h].Sent?
    case Eof(h) => h < |s.handlers| && s.handlers[h].Reading?
    case HandlerEnds(h) => h < |s.handlers| && s.handlers[h].Reading?
    case Stop => true
  }

  function Apply(s: State, a: Action): State
    requires Enabled(s, a)
  {
    match a
    case Accept(peer) => s.(acceptor := Accepted(peer))
    case CountConnection =>
      s.(acceptor := Spawning, connections := s.connections + 1, peers := s.peers + [s.acceptor.peer])
    case Spawn => s.(acceptor := Waiting, handlers := s.handlers + [Reading])
    case AcceptorEnds => s.(acceptor := Gone)
    case Receive(h, n) => s.(handlers := s.handlers[h := Received(n)], taken := s.taken + n)
    case CountReceived(h) =>
      var n := s.handlers[h].n;
      s.(handlers := s.handlers[h := Sending(n)], received := s.received + n)
    case SendAll(h) =>
      var n := s.handlers[h].n;
      s.(handlers := s.handlers[h := Sent(n)], returned := s.returned + n)
    case SendFails(h, k) =>
      s.(handlers := s.handlers[h := EndedByFailure(s.handlers[h].n, k)], returned := s.returned + k)
    case CountEchoed(h) =>
      var n := s.handlers[h].n;
      s.(handlers := s.handlers[h := Reading], echoed := s.echoed + n)
    case Eof(h) => s.(handlers := s.handlers[h := EndedByEof])
    case HandlerEnds(h) => s.(handlers := s.handlers[h := Ended])
    case Stop => s.(stopping := true)
  }

  predicate Runs(s: State, schedule: seq<Action>)
    decreases |schedule|
  {
    schedule == [] || (Enabled(s, schedule[0]) && Runs(Apply(s, schedule[0]), schedule[1..]))
  }

  function Run(s: State, schedule: seq<Action>): State
    requires Runs(s, schedule)
    decreases |schedule|
  {
    if schedule == [] then s else Run(Apply(s, schedule[0]), schedule[1..])
  }

  const START := State(Waiting, [], false, 0, [], 0, 0, 0, 0)

  // --- what each handler owes ---------------------------------------------------

  /** Read and not counted. */
  function Uncounted(h: Handler): nat {
    if h.Received? then h.n else 0
  }

  /** Counted as received and not as echoed: held, or lost in a failed echo. */
  function Owed(h: Handler): nat {
    if h.Sending? || h.Sent? || h.EndedByFailure? then h.n else 0
  }

  /** Sent back and not counted as echoed. */
  function Unreported(h: Handler): nat {
    match h
    case Sent(n) => n
    case EndedByFailure(_, k) => k
    case _ => 0
  }

  function Sum(handlers: seq<Handler>, share: Handler -> nat): nat {
    if handlers == [] then 0 else share(handlers[0]) + Sum(handlers[1..], share)
  }

  lemma {:induction false} SumUpdated(handlers: seq<Handler>, i: nat, h: Handler, share: Handler -> nat)
    requires i < |handlers|
    ensures Sum(handlers[i := h], share) + share(handlers[i]) == Sum(handlers, share) + share(h)
  {
    if i == 0 {
      assert handlers[0 := h][1..] == handlers[1..];
    } else {
      assert handlers[i := h][1..] == handlers[1..][i - 1 := h];
      SumUpdated(handlers[1..], i - 1, h, share);
    }
  }

  lemma {:induction false} SumExtended(handlers: seq<Handler>, h: Handler, share: Handler -> nat)
    ensures Sum(handlers + [h], share) == Sum(handlers, share) + share(h)
  {
    if handlers != [] {
      assert (handlers + [h])[1..] == handlers[1..] + [h];
      SumExtended(handlers[1..], h, share);
    }
  }

  lemma {:induction false} ShareInSum(handlers: seq<Handler>, i: nat, share: Handler -> nat)
    requires i < |handlers|
    ensures share(handlers[i]) <= Sum(handlers, share)
  {
    if i > 0 { ShareInSum(handlers[1..], i - 1, share); }
  }

  lemma {:induction false} SumIsZero(handlers: seq<Handler>, share: Handler -> nat)
    ensures Sum(handlers, share) == 0 <==> forall i :: 0 <= i < |handlers| ==> share(handlers[i]) == 0
  {
    if handlers != [] {
      SumIsZero(handlers[1..], share);
      assert forall i :: 0 < i < |handlers| ==> handlers[i] == handlers[1..][i - 1];
      assert forall i :: 0 <= i < |handlers| - 1 ==> handlers[1..][i] == handlers[i + 1];
    }
  }

  // --- conservation ----------------------------------------------------------------

  ghost predicate Conserved(s: State) {
    && s.taken == s.received + Sum(s.handlers, Uncounted)
    && s.received == s.echoed + Sum(s.handlers, Owed)
    && s.returned == s.echoed + Sum(s.handlers, Unreported)
  }

  /** Every accepted connection is counted, and a counted one has a handler unless
      it is just being spawned. Chunks are never empty. */
  ghost predicate Orderly(s: State) {
    && s.connections == |s.peers| == |s.handlers| + (if s.acceptor.Spawning? then 1 else 0)
    && forall i :: 0 <= i < |s.handlers| ==>
         var h := s.handlers[i];
         && (h.Received? || h.Sending? || h.Sent? || h.EndedByFailure? ==> 0 < h.n)
         && (h.EndedByFailure? ==> h.k <= h.n)
  }

  /** What a step does to a sum over the handlers. */
  lemma {:induction false} StepShifts(s: State, a: Action, share: Handler -> nat)
    requires Enabled(s, a)
    ensures var t := Apply(s, a);
            if a.Spawn? then Sum(t.handlers, share) == Sum(s.handlers, share) + share(Reading)
            else if |t.handlers| == |s.handlers| && t.handlers != s.handlers then
              && a.h < |s.handlers|
              && Sum(t.handlers, share) + share(s.handlers[a.h]) == Sum(s.handlers, share) + share(t.handlers[a.h])
            else t.handlers == s.handlers
  {
    var t := Apply(s, a);
    if a.Spawn? {
      SumExtended(s.handlers, Reading, share);
    } else if t.handlers != s.handlers {
      SumUpdated(s.handlers, a.h, t.handlers[a.h], share);
    }
  }

  lemma {:induction false} StepConserves(s: State, a: Action)
    requires Conserved(s) && Enabled(s, a)
    ensures Conserved(Apply(s, a))
  {
    hide Sum;
    StepShifts(s, a, Uncounted);
    StepShifts(s, a, Owed);
    StepShifts(s, a, Unreported);
  }

  lemma {:induction false} StepKeepsOrder(s: State, a: Action)
    requires Orderly(s) && Enabled(s, a)
    ensures Orderly(Apply(s, a))
  {
  }

  /** The three equations, and the shape, hold in every reachable state: at every
      snapshot, under any interleaving. */
  lemma {:induction false} RunConserves(s: State, schedule: seq<Action>)
    requires Conserved(s) && Orderly(s) && Runs(s, schedule)
    ensures Conserved(Run(s, schedule)) && Orderly(Run(s, schedule))
    decreases |schedule|
  {
    if schedule != [] {
      StepConserves(s, schedule[0]);
      StepKeepsOrder(s, schedule[0]);
      RunConserves(Apply(s, schedule[0]), schedule[1..]);
    }
  }

  lemma StartConserves()
    ensures Conserved(START) && Orderly(START)
  {
  }

  lemma {:induction false} UnreportedIsOwed(handlers: seq<Handler>)
    requires forall i :: 0 <= i < |handlers| ==> Unreported(handlers[i]) <= Owed(handlers[i])
    ensures Sum(handlers, Unreported) <= Sum(handlers, Owed)
  {
    if handlers != [] {
      assert forall i :: 0 <= i < |handlers| - 1 ==> handlers[1..][i] == handlers[i + 1];
      UnreportedIsOwed(handlers[1..]);
    }
  }

  /** At every snapshot: received minus echoed is exactly what the handlers hold or
      lost, the echo count never runs ahead of what was really sent back, which never
      runs ahead of what was received, and there is one peer per connection. */
  lemma {:induction false} SnapshotIsConsistent(schedule: seq<Action>)
    requires Runs(START, schedule)
    ensures var s := Run(START, schedule);
            && s.received - s.echoed == Sum(s.handlers, Owed)
            && s.echoed <= s.returned <= s.received <= s.taken
            && s.connections == |s.peers|
            && |s.handlers| <= s.connections <= |s.handlers| + 1
  {
    var s := Run(START, schedule);
    StartConserves();
    RunConserves(START, schedule);
    UnreportedIsOwed(s.handlers);
  }

  /** The two byte counts agree exactly when no handler holds a counted chunk or
      has lost one. */
  lemma {:induction false} CountsAgreeIff(schedule: seq<Action>)
    requires Runs(START, schedule)
    ensures var s := Run(START, schedule);
            s.received == s.echoed <==>
            forall i :: 0 <= i < |s.handlers| ==>
              !s.handlers[i].Sending? && !s.handlers[i].Sent? && !s.handlers[i].EndedByFailure?
  {
    var s := Run(START, schedule);
    StartConserves();
    RunConserves(START, schedule);
    SumIsZero(s.handlers, Owed);
    assert forall i :: 0 <= i < |s.handlers| ==>
      (Owed(s.handlers[i]) == 0 <==>
       !s.handlers[i].Sending? && !s.handlers[i].Sent? && !s.handlers[i].EndedByFailure?);
  }

  /** Once every handler has ended by end-of-stream, every byte that came in was
      counted, sent back and counted again. */
  lemma {:induction false} CleanEndBalances(schedule: seq<Action>)
    requires Runs(START, schedule)
    requires forall i :: 0 <= i < |Run(START, schedule).handlers| ==> Run(START, schedule).handlers[i].EndedByEof?
    ensures var s := Run(START, schedule); s.taken == s.received == s.returned == s.echoed
  {
    var s := Run(START, schedule);
    StartConserves();
    RunConserves(START, schedule);
    SumIsZero(s.handlers, Owed);
    SumIsZero(s.handlers, Uncounted);
    SumIsZero(s.handlers, Unreported);
  }

  /** The reported numbers never go down, and the list of peers only grows. */
  lemma {:induction false} CountersGrow(s: State, schedule: seq<Action>)
    requires Runs(s, schedule)
    ensures var t := Run(s, schedule);
            && s.connections <= t.connections && s.peers <= t.peers
            && s.received <= t.received && s.echoed <= t.echoed
    decreases |schedule|
  {
    if schedule != [] {
      CountersGrow(Apply(s, schedule[0]), schedule[1..]);
    }
  }
}

/** One connection handler, run on its own. */
module EchoHandler {
  import opened Basics
  import opened Connection

  class BackendStats {
    var tcpBytesReceived: nat
    var tcpBytesEchoed: nat

    constructor ()
      ensures tcpBytesReceived == tcpBytesEchoed == 0
    {
      tcpBytesReceived, tcpBytesEchoed := 0, 0;
    }
  }

  lemma SentMore(log: seq<Io>, io: Io)
    ensures SentBytes(log + [io]) == SentBytes(log) + if io.Got? then [] else io.data
  {
    assert (log + [io])[..|log|] == log;
  }

  /** Counting a chunk, sending it back, counting that. If the sending fails after
      `partly` bytes, `unsent` is the rest and the echo is not counted. */
  method Echo(conn: Socket, stats: BackendStats, data: Bytes) returns (ok: bool, ghost unsent: Bytes, ghost partly: nat)
    modifies conn`accepts, conn`slips, conn`log, stats
    ensures SentBytes(conn.log) + unsent == SentBytes(old(conn.log)) + data
    ensures |SentBytes(conn.log)| == |SentBytes(old(conn.log))| + |data| - |unsent|
    ensures SentBytes(old(conn.log)) <= SentBytes(conn.log)
    ensures stats.tcpBytesReceived == old(stats.tcpBytesReceived) + |data|
    ensures stats.tcpBytesEchoed + partly == old(stats.tcpBytesEchoed) + |data| - |unsent|
    ensures ok ==> unsent == [] && partly == 0
  {
    hide SentBytes;
    ghost var front := Front(data, conn.slips);
    SentMore(conn.log, Sent(data));
    SentMore(conn.log, Torn(front));
    stats.tcpBytesReceived := stats.tcpBytesReceived + |data|;
    ok, unsent, partly := true, [], 0;
    var failed := conn.SendAll(data);
    if failed.Some? {
      ok, unsent, partly := false, data[|front|..], |front|;
      assert data == front + unsent;
    } else {
      stats.tcpBytesEchoed := stats.tcpBytesEchoed + |data|;
    }
  }

  /** Everything that came in is, in order, what went out, what is left of a failed
      echo, and what is not read yet. */
  ghost predicate Accounted(before: Bytes, all: Bytes, sent: Bytes, unsent: Bytes, inbound: Bytes) {
    before <= sent && all == sent + unsent + inbound
  }

  lemma AccountedChunk(before: Bytes, all: Bytes, sent: Bytes, data: Bytes, rest: Bytes, after: Bytes, unsent: Bytes)
    requires Accounted(before, all, sent, [], data + rest) && sent <= after && after + unsent == sent + data
    ensures Accounted(before, all, after, unsent, rest)
  {
    assert sent + [] + (data + rest) == sent + data + rest;
  }

  /** `_handle_tcp`: the stop request is seen at the check after `checks` rounds.
      What went out is what came in, in order and up to some point; `unsent` is the
      rest of a chunk whose echo failed, and `partly` how much of that chunk went out
      without being counted. A clean end means that everything was echoed. */
  method HandleTcp(conn: Socket, stats: BackendStats, checks: nat)
    returns (clean: bool, ghost unsent: Bytes, ghost partly: nat)
    modifies conn, stats
    ensures !conn.isOpen
    ensures SentBytes(conn.log) + unsent + conn.inbound == SentBytes(old(conn.log)) + old(conn.inbound)
    ensures SentBytes(old(conn.log)) <= SentBytes(conn.log)
    ensures stats.tcpBytesReceived == old(stats.tcpBytesReceived) + |old(conn.inbound)| - |conn.inbound|
    ensures stats.tcpBytesEchoed + partly
         == old(stats.tcpBytesEchoed) + |SentBytes(conn.log)| - |SentBytes(old(conn.log))|
    ensures clean ==> unsent == [] && partly == 0 && conn.inbound == [] && conn.closing == Closed
  {
    clean, unsent, partly := false, [], 0;
    var i, ok := 0, true;
    ghost var before := SentBytes(conn.log);
    ghost var all := before + conn.inbound;
    assert Accounted(before, all, before, [], conn.inbound) by { assert before + [] == before; }
    hide SentBytes, Accounted;
    while ok && !clean && i < checks
      invariant ok ==> unsent == [] && partly == 0
      invariant Accounted(before, all, SentBytes(conn.log), unsent, conn.inbound)
      invariant stats.tcpBytesReceived == old(stats.tcpBytesReceived) + |old(conn.inbound)| - |conn.inbound|
      invariant stats.tcpBytesEchoed + partly == old(stats.tcpBytesEchoed) + |SentBytes(conn.log)| - |before|
      invariant clean ==> ok && conn.inbound == [] && conn.closing == Closed
      decreases checks - i
    {
      i := i + 1;
      var received := conn.Recv(RECV_CHUNK);
      match received {
        case Failed(TimedOut) =>
        case Failed(_) => break;
        case Eof =>
          var failed := conn.ShutdownWrite();
          clean := true;
        case Data(data) =>
          ghost var sent := SentBytes(conn.log);
          ok, unsent, partly := Echo(conn, stats, data);
          AccountedChunk(before, all, sent, data, conn.inbound, SentBytes(conn.log), unsent);
      }
    }
    conn.Close();
    AccountedMeans(before, all, SentBytes(conn.log), unsent, conn.inbound);
  }

  lemma AccountedMeans(before: Bytes, all: Bytes, sent: Bytes, unsent: Bytes, inbound: Bytes)
    requires Accounted(before, all, sent, unsent, inbound)
    ensures before <= sent && all == sent + unsent + inbound
  {
  }
}

/** Starting and stopping the backend. */
module BackendLifecycle {
  import opened Basics

  class Listener {
    const port: nat
    var isOpen: bool

    constructor (port: nat)
      ensures this.port == port && isOpen
    {
      this.port, isOpen := port, true;
    }

    method Close()
      modifies this
      ensures !isOpen
    {
      isOpen := false;
    }
  }

  /** How the creation of a socket and its binding end; the port is the one bound,
      which for port 0 the system chose. */
  datatype Binding = NotCreated | NotBound | Bound(port: nat)

  datatype Thread = TcpLoop | UdpLoop | Connection

  class EchoBackend {
    const port: nat
    const enableUdp: bool
    var stopping: bool
    var tcpSocket: Listener?
    var udpSocket: Listener?
    var boundPort: Option<nat>
    var threads: seq<Thread>
    ghost var made: set<Listener>  // every listening socket ever created

    constructor (port: nat, enableUdp: bool)
      ensures this.port == port && this.enableUdp == enableUdp && Stopped() && made == {} && boundPort == None
    {
      this.port, this.enableUdp := port, enableUdp;
      stopping, tcpSocket, udpSocket, boundPort, threads, made := false, null, null, None, [], {};
    }

    ghost predicate Valid()
      reads this
    {
      && (tcpSocket != null ==> tcpSocket in made)
      && (udpSocket != null ==> udpSocket in made)
    }

    predicate Stopped()
      reads this
    {
      tcpSocket == null && udpSocket == null && threads == []
    }

    ghost function OpenListeners(): set<Listener>
      reads this`made, made`isOpen
    {
      set s | s in made && s.isOpen
    }

    function BoundPort(): nat
      reads this
    {
      if boundPort.Some? then boundPort.value else port
    }

    /** Releases whatever the backend holds. */
    method Stop()
      requires Valid()
      modifies this`stopping, this`tcpSocket, this`udpSocket, this`threads,
               (if tcpSocket == null then {} else {tcpSocket}) + (if udpSocket == null then {} else {udpSocket})
      ensures Valid() && Stopped() && stopping
      ensures OpenListeners() == old(OpenListeners()) - {old(tcpSocket), old(udpSocket)}
    {
      stopping := true;
      if tcpSocket != null {
        tcpSocket.Close();
      }
      if udpSocket != null {
        udpSocket.Close();
      }
      tcpSocket, udpSocket, threads := null, null, [];
    }

    /** The part-way failure of a start: whatever is still held is released. */
    method GiveUp()
      requires Valid()
      modifies this`stopping, this`tcpSocket, this`udpSocket, this`threads, this`boundPort,
               (if tcpSocket == null then {} else {tcpSocket}) + (if udpSocket == null then {} else {udpSocket})
      ensures Valid() && Stopped() && boundPort == None
      ensures OpenListeners() == old(OpenListeners()) - {old(tcpSocket), old(udpSocket)}
    {
      Stop();
      boundPort := None;
    }

    /** A new socket, which nothing refers to yet. */
    method Create(port: nat) returns (listener: Listener)
      modifies this`made
      ensures fresh(listener) && listener.isOpen && made == old(made) + {listener}
      ensures listener !in old(OpenListeners()) && OpenListeners() == old(OpenListeners()) + {listener}
    {
      listener := new Listener(port);
      made := made + {listener};
    }

    /** All or nothing: a start that fails part-way leaves the backend stopped, with
        no port, and nothing open that it opened; one that succeeds opens exactly the
        sockets it was asked for. Starting a backend that was not stopped first
        forgets a socket that it replaces, without closing it, even if the start then
        fails; a failing start closes only what it has not replaced. */
    method Start(tcp: Binding, udp: Binding) returns (ok: bool)
      requires Valid()
      modifies this, (if tcpSocket == null then {} else {tcpSocket}) + (if udpSocket == null then {} else {udpSocket})
      ensures Valid() && ok == (tcp.Bound? && (enableUdp ==> udp.Bound?))
      ensures !ok ==> Stopped() && boundPort == None
      ensures !ok ==>
                OpenListeners() == old(OpenListeners())
                  - (if tcp == NotCreated then {old(tcpSocket), old(udpSocket)}
                     else if tcp.Bound? && udp != NotCreated then {}
                     else {old(udpSocket)})
      ensures ok ==>
                && !stopping && tcpSocket != null && boundPort == Some(tcp.port) && BoundPort() == tcp.port
                && (if enableUdp then udpSocket != null else udpSocket == old(udpSocket))
                && threads == old(threads) + [TcpLoop] + (if enableUdp then [UdpLoop] else [])
                && OpenListeners() == old(OpenListeners()) + {tcpSocket} + (if enableUdp then {udpSocket} else {})
    {
      hide EchoBackend.OpenListeners;
      stopping := false;
      if tcp == NotCreated {
        GiveUp();
        return false;
      }
      tcpSocket := Create(if tcp.Bound? then tcp.port else port);
      if tcp == NotBound {
        GiveUp();
        return false;
      }
      boundPort := Some(tcp.port);
      if enableUdp {
        if udp != NotCreated {
          udpSocket := Create(BoundPort());
        }
        if !udp.Bound? {
          GiveUp();
          return false;
        }
      }
      threads := threads + [TcpLoop];
      if enableUdp {
        threads := threads + [UdpLoop];
      }
      ok := true;
    }
  }
}
