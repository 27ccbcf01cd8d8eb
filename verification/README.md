# A verified model of the network stack test suite

The suite drives traffic at a device under test. When that device is a proxy, one
instance connects *through* it as a client and a second one stands behind it as an
echo backend; a pytest subprocess reports progress through two growing log files
that the parent tails. This project models the parts of that machinery that hold
state, loop, or follow a protocol, and proves what each of them is for.

| file | what it models |
|---|---|
| `Relay.dfy` | client, relay pumps and echo handler as a chain of workers over TCP directions, one step per socket operation |
| `Connection.dfy`, `Socks5.dfy`, `Socks5Server.dfy`, `HttpConnect.dfy`, `Handshakes.dfy` | the wire formats and the standards' reading of them, the client's handshakes against any server, the stub proxy's decoders, and the same exchanges step by step on a socket |
| `ProxyClient.dfy`, `Inducer.dfy` | the life of one connection, and the loop that keeps making them |
| `Session.dfy` | client, stub proxy and relay joined at their streams: a whole session |
| `Backend.dfy` | the backend's threads and counters, one handler on its own, start and stop |
| `Lines.dfy`, `Utf8.dfy`, `LogPipeline.dfy`, `Verdicts.dfy`, `RunResult.dfy` | bytes of a growing file to lines, the locked event writer and its poller, test verdicts, and the drains that update a run's result in place |
| `CycleFinder.dfy` | the three-colour depth-first search over the import graph |
| `TestTree.dfy`, `TestTreeWidget.dfy` | the tri-state test picker and what it reports as selected |
| `PyText.dfy`, `Authority.dfy`, `Transport.dfy` | decimal numbers and text splitting, `host:port`, and the run configuration on its way through an argument list |
| `Models.dfy`, `Metrics.dfy`, `Sequence.dfy` | packet events, the live metrics buffer, and TCP sequence-number tracking |

Threads are modelled as a state machine: a schedule is a list of steps, each enabled
when its turn comes, so a statement about every schedule is one about every
interleaving. Objects that one thread updates in place are classes whose methods are
proved against functions on values. What a peer sends is a fixed but arbitrary byte
sequence, so a statement over all of them covers a peer that adapts its answers.
Times, random numbers and the outcomes of system calls are parameters.

Some results differ from what one might expect of the code, and are stated as they are:

- `format_authority` can be undone only for some hosts: `Authority.SplitUndoesFormatIff`
  and `HttpConnect.StubUndoesRequestIff` give the exact conditions,
  `Authority.BracketsAreLost` and `HttpConnect.StubStripsBrackets` a host that fails.
- An interrupt inside `drain_packet_events` leaves the offset where it was, and the
  `finally` block drains again: the packets taken before the interrupt are saved twice
  (`RunResult.InterruptedDrainDoubles`, exactly when: `RunResult.DoubledIff`).
- An interrupt inside `drain_test_events` costs no test its outcome. But a worsening is
  three assignments, and one that is cut short is not made up for by draining again: its
  time, and perhaps its message, stay lost (`Verdicts.TornReportLosesTime`, exactly when:
  `RunResult.TornIff`).
- A tracker that sends a segment with both SYN and FIN falls one behind section 3.4 of
  RFC 9293 (`Sequence.SynFinIsShort`); `Sequence.AgreesWithStandardIff` says exactly when
  it agrees.
- `ProxyClient.connect` on a client that is already connected leaves the first socket
  open (`ProxyClient.ConnectTwice`); the contract of `ProxyClient.ProxyClient.Connect`
  gives the exact set of open sockets. The inducer never does this, so it holds at most
  one. `EchoBackend.start` on a backend that was not stopped does the same, even when it
  fails; the contract of `BackendLifecycle.EchoBackend.Start` gives the exact set.
- `roundtrip` sends everything before it reads anything, so it can get stuck half-way,
  until its timeout ends it (`Relay.LargePayloadCanHang`). Unless a timeout comes first,
  it always gets its payload back exactly when the payload fits the relay's buffering
  (`Relay.RoundtripAlwaysCompletesIff`).
- The stub proxy reads with single `recv` calls. A request that comes in pieces can be
  dialled wrongly (`Socks5.LatePortByte`); `Socks5.StubUndoesClientIff` says exactly when
  it is not.
- The inducer counts a connection as a success when as many bytes come back as were
  sent; which bytes is not looked at (`Inducer.SucceedsIff`).
- A test name that begins with a dash may be taken for an option by the subprocess, which
  then rejects its command line (`Transport.DashedNames`); `Transport.AgreeIffResolved`
  says exactly when both ends agree.

## Model

| member | source | states |
|---|---|---|
| `Relay.StepKeepsInv` | tests_internal/test_proxy_relay.py:102-115 | every socket operation of client, pumps and echo handler, failures included, keeps conservation and the order of FINs behind data |
| `Relay.RunKeepsInv` | src/proxy/backend.py:213-243 | so does every interleaving of them |
| `Relay.RelayFidelity` | src/proxy/client.py:88-101 | at every moment what the client read, followed by everything in flight, is a prefix of what it sent, and all of it while nothing broke |
| `Relay.EofMeansDrained` | src/proxy/backend.py:224-231 | end-of-stream at any point of an unbroken chain means the client half-closed and nothing is left behind that point |
| `Relay.EofOnlyAfterEverything` | src/proxy/client.py:115-144 | without failures the client meets end-of-stream only after it half-closed and every byte it sent came back |
| `Relay.RoundtripReturnsPayload` | src/proxy/client.py:109-113 | a round trip with nothing outstanding returns exactly its payload, under every schedule |
| `Relay.DrainingDecreases` | tests_internal/test_proxy_relay.py:102-115 | every step of the threads or of a reading client strictly reduces the remaining work and breaks nothing |
| `Relay.NeverStuckAfterHalfClose` | src/proxy/client.py:115-118 | until the client is at end-of-stream, a half-closed unbroken relay has a step to take |
| `Relay.HalfCloseDrains` | src/proxy/client.py:120-144 | after a half-close every schedule ends, and where it cannot go on the client is at end-of-stream with everything it sent |
| `Relay.BlockedIffJammed` | src/proxy/client.py:103-113 | while the client sends without reading, the relay is blocked exactly when all its buffers and workers are full |
| `Relay.PayloadFitsNeverBlocks` | src/proxy/client.py:109-113 | a payload smaller than the relay's buffering never blocks |
| `Relay.OutstandingCanMove` | tests_internal/test_proxy_relay.py:102-115 | while bytes are outstanding in an unbroken relay, half-closed or not, some thread can pass them on or the client can read them |
| `Relay.StepStaysUnderway` | src/proxy/client.py:109-113 | every step of a round trip keeps its conditions and strictly reduces the effort that is left |
| `Relay.RestIsDone` | src/proxy/client.py:109-113 | a round trip that can go no further, with a payload that fits the buffering, has sent everything and read everything back |
| `Relay.RoundtripCompletes` | src/proxy/client.py:109-113 | every schedule of a round trip is finite, whatever the payload; if the payload fits the buffering, every maximal one ends with exactly the payload |
| `Relay.StuffedHolds` | src/proxy/backend.py:224-243 | a relay whose threads read byte by byte holds no more than its buffering |
| `Relay.LargePayloadCanHang` | src/proxy/client.py:109-113 | for every payload larger than the buffering, a schedule that ends with nothing read back, part of the payload unsent, and no step left |
| `Relay.RoundtripAlwaysCompletesIff` | src/proxy/client.py:109-113 | a round trip gets its payload back under every maximal schedule exactly when the payload fits the relay's buffering |
| `Relay.RestIsReachable` | src/proxy/client.py:109-113 | from every state of such a round trip there is a way to its end |
| `Connection.Socket.ReadExact` | src/proxy/client.py:88-101 | reads exactly the count whatever sizes arrive, or fails as the connection ends |
| `Connection.Socket.SendAll` | src/proxy/client.py:103-104 | sends the whole payload, or fails after any part of it has gone out |
| `Socks5.ReplyReadsBack` | src/proxy/tunnel.py:224-252 | the reply reader undoes the server's encoder for every address type and port, and reads nothing past the reply |
| `Socks5.EncodedAddressReadsBack` | src/proxy/tunnel.py:224-252 | read back behind VER, REP, RSV, the client's own encoding gives the same host and port |
| `Socks5.StubHostReadsBack` | tests_internal/test_proxy_relay.py:144-150 | the stub's address decoder undoes the client's encoder, once enough of the address has come in |
| `Socks5.StubUndoesClientIff` | tests_internal/test_proxy_relay.py:134-157 | greeting and request decode at the stub to the destination the client encoded, consuming exactly these messages, exactly if enough bytes have come in at each of the stub's reads |
| `Socks5.LatePortByte` | tests_internal/test_proxy_relay.py:151 | a request whose last byte comes in late is dialled at the high byte of its port |
| `Socks5.StubTakes` | tests_internal/test_proxy_relay.py:134-157 | what a negotiation that found a destination has taken off the stream, and which of its reads were whole |
| `Socks5.AuthenticateSafe` | src/proxy/handshakes.py:150-162 | authentication sends at most the credentials, only if both are configured, and succeeds only on status 0 |
| `Socks5.NegotiateSafe` | src/proxy/handshakes.py:136-168 | what a negotiation can leave in the log, against every server |
| `Socks5.RequestSends` | src/proxy/handshakes.py:125-134 | the request goes out once, nothing is sent after it, and success needs reply code 0 |
| `Socks5.ReplyOnlyReads` | src/proxy/tunnel.py:224-252 | reading a reply sends nothing and takes at most 262 bytes |
| `Socks5.SafeAgainstEveryServer` | src/proxy/handshakes.py:122-168 | against every byte stream: what goes out, in whole or in part, is the greeting, then the credentials only after 0x02 was offered and selected, the request only after 0x00 or accepted credentials; success only with an offered method and reply code 0; at most 266 bytes read |
| `Socks5.NegotiationHadScript` | src/proxy/handshakes.py:136-168 | every accepted negotiation was a granting one |
| `Socks5.ScriptGrants` | src/proxy/handshakes.py:122-134 | a granting server is accepted and the tunnel bytes behind it are untouched |
| `Socks5.ReplyHadForm` | src/proxy/tunnel.py:224-252 | every reply that was read had the form of section 6 of RFC 1928 |
| `Socks5.SuccessHadScript` | src/proxy/handshakes.py:122-134 | every success came from a granting server |
| `Socks5.SucceedsIffGranted` | src/proxy/handshakes.py:122-168 | the handshake succeeds, leaving the tunnel bytes, exactly for the granting scripts the client can complete |
| `Socks5.ClientMeetsStub` | tests_internal/test_proxy_relay.py:153-157 | the client accepts exactly the stub's grant and reports its refusal |
| `Socks5.GrantedSends` | src/proxy/handshakes.py:122-168 | an established tunnel has sent the greeting, the credentials if they were asked for, and the request, and nothing else |
| `Socks5Server.BuildableIff` | src/proxy/tunnel.py:158-214 | which greetings, credentials and requests can be built at all |
| `Socks5Server.LoginReadsBack` | src/proxy/tunnel.py:200-214 | a server that reads by section 2 of RFC 1929 finds the username and then the password, and leaves what follows alone |
| `Socks5Server.RequestReadsBack` | src/proxy/tunnel.py:180-197 | a server that reads by section 4 of RFC 1928 finds the destination |
| `Socks5Server.ServerUnderstands` | src/proxy/handshakes.py:122-168 | from everything a client sent on an established tunnel such a server reads the offered methods, the configured username and password if it asked for them, the destination, and nothing else |
| `Socks5Server.ClientReadsReply` | src/proxy/tunnel.py:217-252 | every reply of section 6 of RFC 1928 is read as its code, address and port; bytes of a name outside ASCII are replaced |
| `Socks5Server.ClientUnderstandsIff` | src/proxy/handshakes.py:122-168 | the handshake succeeds exactly for the granting answers of the standards, byte for byte, that the client can complete |
| `Socks5Server.MethodRefused` | src/proxy/handshakes.py:144-168 | a selection the client cannot follow is reported and nothing more is sent |
| `Socks5Server.LoginRefused` | src/proxy/handshakes.py:150-162 | refused credentials are reported, and no request is sent |
| `Socks5Server.RequestRefused` | src/proxy/handshakes.py:125-134 | a refusing reply is reported with its code |
| `HttpConnect.HeadIffComplete` | src/proxy/tunnel.py:92-106 | a header block is read, leaving the rest, exactly when the shortest front ending in CRLFCRLF exists and has at most 65536 bytes |
| `HttpConnect.EstablishedIff` | src/proxy/handshakes.py:77-88 | the tunnel is established, leaving the tunnel bytes, exactly on a complete header block that carries a 2xx response |
| `HttpConnect.RefusedIff` | src/proxy/handshakes.py:77-88 | the refusal is reported with its response exactly when the header block is complete and carries a response that is not 2xx |
| `HttpConnect.VersionIff` | src/proxy/tunnel.py:72-74 | which texts pass for a version, letter by letter |
| `HttpConnect.StatusLineReadsBack` | src/proxy/tunnel.py:66-81 | every status line, whatever its code, reason and header lines, is read back |
| `HttpConnect.ParsedIffStatusLine` | src/proxy/tunnel.py:66-89 | a response is read exactly from the blocks whose first line is a version, a numeric code and perhaps a reason |
| `HttpConnect.RequestIsHead` | src/proxy/tunnel.py:51-63 | the request is one header block whose first line is the request line |
| `HttpConnect.BuildableIff` | src/proxy/tunnel.py:51-63 | a request can be built exactly for a host of ASCII characters |
| `HttpConnect.HostRepeatsTarget` | src/proxy/tunnel.py:51-63 | the request is a request line and one Host line, and the Host is the target of the request line |
| `HttpConnect.StubUndoesRequest` | tests_internal/test_proxy_relay.py:117-132 | the stub decodes the request to the client's host and port, IPv6 literals included, consuming exactly the request |
| `HttpConnect.StubAnswers` | tests_internal/test_proxy_relay.py:127-131 | the stub's two answers, as text |
| `HttpConnect.DecodedHostIsCarriable` | tests_internal/test_proxy_relay.py:130-132 | the stub never decodes a host with a space, a line break or a bracket at an end |
| `HttpConnect.StubUndoesRequestIff` | tests_internal/test_proxy_relay.py:117-132 | the round trip holds, for every port, exactly for hosts without spaces, line breaks and brackets at the ends |
| `HttpConnect.StubStripsBrackets` | tests_internal/test_proxy_relay.py:130-132 | for such a host the stub dials the address inside the brackets |
| `HttpConnect.EstablishedSends` | src/proxy/handshakes.py:77-80 | an established tunnel has sent the request and nothing else |
| `HttpConnect.ClientMeetsStub` | tests_internal/test_proxy_relay.py:127-132 | the client accepts exactly the stub's 200 and reports its 403, leaving the tunnel bytes |
| `Handshakes.ReadSocks5Reply` | src/proxy/tunnel.py:224-252 | the reader, step by step on a socket, does what its function says |
| `Handshakes.ReadHttpHead` | src/proxy/tunnel.py:92-106 | the byte-by-byte loop is the reading of the shortest header block within the limit |
| `Handshakes.HttpConnectHandshake.Establish` | src/proxy/handshakes.py:77-88 | the CONNECT exchange on a socket is the function the results above are about |
| `Handshakes.Socks5Handshake.Negotiate` | src/proxy/handshakes.py:136-168 | the negotiation on a socket is the function the results above are about |
| `Handshakes.Socks5Handshake.Authenticate` | src/proxy/handshakes.py:150-162 | so is the authentication |
| `Handshakes.Socks5Handshake.Establish` | src/proxy/handshakes.py:122-134 | and the whole exchange |
| `Handshakes.StubProxy.ReadRequestHead` | tests_internal/test_proxy_relay.py:118-123 | the stub's loop reads to the first terminator, with no limit, or to the end of the stream |
| `Handshakes.StubProxy.NegotiateHttp` | tests_internal/test_proxy_relay.py:117-132 | the stub's CONNECT negotiation on a socket |
| `Handshakes.StubProxy.NegotiateSocks5` | tests_internal/test_proxy_relay.py:134-157 | the stub's SOCKS5 negotiation on a socket, for all sizes in which its reads return |
| `Handshakes.StubProxy.ReadRequest` | tests_internal/test_proxy_relay.py:141-157 | the request and its answer |
| `Handshakes.StubProxy.ReadHost` | tests_internal/test_proxy_relay.py:144-150 | the three address types: a short literal is an error, a short name is not |
| `ProxyClient.ProxyClient.Connect` | src/proxy/client.py:42-65 | success, failure to dial and failure of the handshake: details, the socket, exactly which sockets are left open, and how many are open while the handshake runs |
| `ProxyClient.ProxyClient.Open` | src/proxy/client.py:43-45 | the new socket takes the place of the old one, which stays open |
| `ProxyClient.ConnectTwice` | src/proxy/client.py:42-65 | after two successful connects without a close two connections are open, the first out of the client's reach |
| `ProxyClient.ProxyClient.Establish` | src/proxy/client.py:46-50 | the handshake of the configured mode |
| `ProxyClient.ProxyClient.Close` | src/proxy/client.py:67-72 | closes the current socket and no other |
| `ProxyClient.ProxyClient.SendAndReceive` | src/proxy/client.py:109-113 | sends the payload, then reads as many bytes; fails without a connection |
| `ProxyClient.ProxyClient.HalfClose` | src/proxy/client.py:115-118 | nothing can be sent any more, what arrives can still be read; or an error, and nothing changed |
| `ProxyClient.ProxyClient.ReadUntilEof` | src/proxy/client.py:120-144 | below the limit everything up to end-of-stream, and a missing end-of-stream is an error, never a result |
| `Session.TunnelIsFaithful` | src/proxy/client.py:109-113 | over a granted tunnel, whatever the relay did, a round trip sends the payload and returns the payload or an error; the payload exactly if the relay delivered it |
| `Session.RelayDelivers` | tests_internal/test_proxy_relay.py:102-115 | an undisturbed relay run delivers the whole payload |
| `Session.ThroughHttpStub` | tests_internal/test_proxy_relay.py:195-202 | client, CONNECT stub and relay joined at their streams: the tunnel opens, the stub dials the client's origin exactly if its host is carriable and leaves exactly the payload to the relay, and the round trip returns the payload or an error |
| `Session.ThroughSocksStub` | tests_internal/test_proxy_relay.py:195-202 | the same for SOCKS5 and every destination that can be encoded; the stub finds the origin and leaves exactly the payload exactly if its reads return in full |
| `Session.RoundtripThroughStub` | tests_internal/test_proxy_relay.py:195-202 | with an undisturbed relay that can hold the payload, the session always ends with exactly the payload, in both modes |
| `Session.SessionsExist` | tests_internal/test_proxy_relay.py:195-202 | for every configuration, payload and answer, over every relay that can hold the payload, there is such a session |
| `Inducer.TotalCounts` | src/proxy/inducer.py:106-107 | counting one failure adds one to the sum of all error counts |
| `Inducer.TrafficInducer.CountAttempt` | src/proxy/inducer.py:97-98 | after this locked block attempts = successes + errors + 1 in flight |
| `Inducer.TrafficInducer.CountFailure` | src/proxy/inducer.py:104-107 | after this locked block the equation holds with none in flight |
| `Inducer.TrafficInducer.CountSuccess` | src/proxy/inducer.py:116-117 | likewise |
| `Inducer.TrafficInducer.Induce` | src/proxy/inducer.py:99-102 | whatever happens on a connection, it is closed again, and at no moment, the handshake included, was more than one open |
| `Inducer.TrafficInducer.Iterate` | src/proxy/inducer.py:97-118 | one iteration: counters, streak and waits for each outcome |
| `Inducer.TrafficInducer.Loop` | src/proxy/inducer.py:94-118 | for every sequence of outcomes the counters are the tallies of the outcomes and the waits follow the streaks of failures |
| `Inducer.PausesAreBounded` | src/proxy/inducer.py:112-118 | no back-off exceeds five seconds; every other wait is the interval |
| `Inducer.LastWaits` | src/proxy/inducer.py:112-118 | after every iteration the interval is waited; before that, after the tenth and any further failure in a row, the interval times the failures, at most five seconds, and after no other iteration |
| `Inducer.SucceedsIff` | src/proxy/inducer.py:99-102 | an attempt is a success exactly if dialling, handshake and sending succeed and as many bytes come back |
| `Inducer.TalliesCount` | src/proxy/inducer.py:104-117 | the tallies are numbers of outcomes of one name, and of successes |
| `Inducer.StreakIsTail` | src/proxy/inducer.py:103-115 | the failures in a row are exactly those since the last success |
| `Inducer.NoBackoffWhileTransient` | src/proxy/inducer.py:108-113 | below ten failures in a row nothing but the interval is waited |
| `Backend.StepConserves` | src/proxy/backend.py:207-243 | every step of every thread keeps the three counter equations |
| `Backend.RunConserves` | src/proxy/backend.py:188-243 | so does every interleaving |
| `Backend.SnapshotIsConsistent` | src/proxy/backend.py:79-89 | at every snapshot received minus echoed is what handlers hold or lost; echoed, really returned, received and really read are in order; one peer per connection |
| `Backend.CountsAgreeIff` | src/proxy/backend.py:232-243 | the two byte counts agree exactly when no handler holds or lost a counted chunk |
| `Backend.CleanEndBalances` | src/proxy/backend.py:224-243 | once all handlers ended by end-of-stream, read, received, returned and echoed are equal |
| `Backend.CountersGrow` | src/proxy/backend.py:79-89 | later snapshots never report less |
| `EchoHandler.Echo` | src/proxy/backend.py:232-243 | one chunk is counted, sent back and counted again; an echo that fails part-way is not counted, and its rest is what is missing |
| `EchoHandler.HandleTcp` | src/proxy/backend.py:213-243 | one handler: what went out is what came in up to some point, the counts grow by exactly what was read and what was echoed whole, and a clean end echoed everything |
| `BackendLifecycle.EchoBackend.Start` | src/proxy/backend.py:109-145 | all or nothing: a failed start leaves no socket, thread or port behind; and the exact set of open sockets after success and after every failure, for a backend that was not stopped too |
| `BackendLifecycle.EchoBackend.Stop` | src/proxy/backend.py:147-159 | closes and forgets what the backend holds |
| `CycleFinder.FindCycle` | tests_internal/test_import_graph.py:71-96 | a simple cycle of the graph, or nothing exactly when it has none; it always terminates |
| `CycleFinder.Search.Visit` | tests_internal/test_import_graph.py:77-89 | a cycle, or the module and everything it leads to is finished and the stack is as before |
| `CycleFinder.Search.VisitNeighbours` | tests_internal/test_import_graph.py:80-86 | a cycle, or every neighbour is finished |
| `CycleFinder.Search.StackFrom` | tests_internal/test_import_graph.py:81-82 | the stack from a grey neighbour on, closed, is a simple cycle |
| `CycleFinder.Search.Wind` | tests_internal/test_import_graph.py:78-79 | greying and pushing keeps grey = stack and the stack a path |
| `CycleFinder.Search.Unwind` | tests_internal/test_import_graph.py:87-88 | popping and blackening keeps finished modules closed under their successors |
| `CycleFinder.Search.Run` | tests_internal/test_import_graph.py:91-96 | the search from every module in turn |
| `CycleFinder.PathDescends` | tests_internal/test_import_graph.py:80-88 | along any path the finishing positions go down |
| `CycleFinder.AllFinishedIsAcyclic` | tests_internal/test_import_graph.py:91-96 | an exhausted search leaves no cycle |
| `Forest.SiblingsInOrder` | src/gui/test_tree_widget.py:66-78 | everything below an earlier sibling is displayed before everything below a later one |
| `Selection.CoherentIsTruthful` | src/gui/test_tree_widget.py:116-126 | the rule between parents and children makes every mark true of all leaves below it |
| `Selection.ReportedCoverExactly` | src/gui/test_tree_widget.py:137-154 | the reported items cover exactly the checked leaves and no reported item lies in another |
| `Selection.ReportedIsMinimum` | src/gui/test_tree_widget.py:137-154 | no set of items that covers exactly these leaves is smaller |
| `TestTreeWidget.Widget.UserToggles` | src/gui/test_tree_widget.py:96-126 | a click sets its whole subtree, changes nothing outside it but ancestors, and keeps every mark right |
| `TestTreeWidget.Widget.OnItemChanged` | src/gui/test_tree_widget.py:96-108 | the cascade down and the roll-up of an item's change |
| `TestTreeWidget.Widget.SetDescendants` | src/gui/test_tree_widget.py:110-114 | exactly the items strictly below take the state |
| `TestTreeWidget.Widget.RefreshAncestors` | src/gui/test_tree_widget.py:116-126 | exactly the ancestors are recomputed, each right for its children |
| `TestTreeWidget.Widget.ChildrenVerdict` | src/gui/test_tree_widget.py:119-125 | the state an item gets from its children |
| `TestTreeWidget.Session` | src/gui/test_tree_widget.py:96-126 | after any sequence of clicks every mark is true of its leaves and each leaf is as its last covering click left it |
| `TestTreeWidget.LeafStateIff` | src/gui/test_tree_widget.py:96-126 | a leaf is checked exactly if the last click at or above it ticked its box |
| `TestTreeWidget.Widget.CheckedTargets` | src/gui/test_tree_widget.py:137-154 | the targets of exactly the reported items, in display order |
| `TestTreeWidget.Widget.WalkTargets` | src/gui/test_tree_widget.py:143-150 | the same below one item |
| `TestTreeWidget.Widget.CheckedSpecs` | src/gui/test_tree_widget.py:156-171 | the specs of exactly the checked items that have one, in display order, all of them under the reported items |
| `TestTreeWidget.Widget.WalkSpecs` | src/gui/test_tree_widget.py:161-167 | the same below one item |
| `Lines.DecodeDistributes` | src/runner.py:400-402 | UTF-8 decoding with replacement distributes over a chunk that ends in a line feed |
| `Lines.SplitDistributes` | src/runner.py:402 | so does line splitting, with all its line breaks |
| `Lines.LinesDistribute` | src/runner.py:400-403 | the non-blank lines of two complete chunks are those of both at once |
| `Lines.PollCatchesUp` | src/runner.py:380-403 | one poll brings a reader exactly up to the last line feed |
| `Lines.NewLinesGrow` | src/runner.py:380-403 | a later poll from the same offset reads the same lines and perhaps more |
| `Lines.TailingRefinesBatch` | src/runner.py:380-403 | for any growth of the file and any moments of polling, the delivered lines are the lines of one read up to the last line feed; the offset never goes back and is 0 or just after a line feed |
| `Utf8.DecodeUndoesEncode` | src/runner.py:402 | every text is read back from its encoding of section 3 of RFC 3629 |
| `Utf8.EncodeUndoesDecode` | src/runner.py:402 | what decodes without a replacement character was the encoding of what came out |
| `Utf8.DecodesIff` | src/runner.py:402 | bytes decode to a text without replacement characters exactly if they encode it |
| `Utf8.ReplacedIsMaximal` | src/runner.py:402 | where no character is encoded, one replacement stands for the longest bytes that could start one, or for a single byte |
| `LogPipeline.StepKeepsInv` | src/reporting/collector.py:41-53 | every critical section, landed piece, close and poll keeps file and poller in step with the accepted events |
| `LogPipeline.RunKeepsInv` | src/runner.py:525-551 | so does every interleaving |
| `LogPipeline.SomeCodecIsFaithful` | src/reporting/collector.py:42 | whatever events a run writes, some codec carries them, so the results below are about every run |
| `LogPipeline.LogReadsBack` | src/reporting/collector.py:41-47 | a log of written events parses back to exactly these events |
| `LogPipeline.PollerSeesPrefix` | src/runner.py:525-551 | at every moment the poller holds a prefix of the events in lock order: none lost, split or doubled |
| `LogPipeline.QuietPollIsComplete` | src/runner.py:525-551 | a poll with no write half-landed holds every accepted event |
| `LogPipeline.CloseThenDrain` | src/reporting/collector.py:49-53 | after a close a final drain holds exactly the events written before it, whatever is still attempted |
| `Verdicts.MergeSummarizes` | src/runner.py:437-440 | merging keeps an entry the summary of all its reports: worst outcome, time and message of strictly worsening reports only |
| `Verdicts.UpsertTabulates` | src/runner.py:427-442 | one more report keeps the table: one entry per test in first-report order, each a summary |
| `Verdicts.FoldTabulates` | src/runner.py:416-443 | the fold of any log is that table |
| `Verdicts.FailureIsNeverLost` | src/runner.py:463-512 | a failed setup or teardown makes its test an error and a failed call makes it at least a failure, whatever else is reported |
| `Verdicts.EntryIsWorst` | src/runner.py:406-413 | an entry's outcome is the worst among the reports of its test |
| `Verdicts.PassedIff` | src/runner.py:463-512 | a test is listed as passed exactly when its call passed and no report of any phase speaks against it |
| `Verdicts.LineSays` | src/runner.py:463-520 | what a log line says, by the texts of its phase and outcome: verdict, test, time, markers and message |
| `Verdicts.ListedIff` | src/runner.py:463-512 | a test is an error exactly when a report says so, a failure when one says that and none error, skipped when one says that and none failure or error, passed when one says that and none anything else |
| `Verdicts.EntryShows` | src/runner.py:427-442 | an entry in terms of the reports in the log: markers of the first, time of those worse than all before them, message of the first one of its outcome |
| `Verdicts.CountIsNumber` | src/reporting/models.py:143-158 | a count is the number of entries of that outcome |
| `Verdicts.FoldInTwoGoes` | src/runner.py:416-443 | draining in two goes is draining once |
| `Verdicts.StartingOverChangesNothing` | src/runner.py:416-443 | a drain that is cut short between two lines and started over leaves the same entries as one that is not |
| `Verdicts.MergeAllAlike` | src/runner.py:437-440 | two entries of one outcome stay so under any further reports, their times keep their distance, and their messages agree once a report replaces them |
| `Verdicts.HalfTakenIff` | src/runner.py:437-440 | a drain cut short inside a worsening and started over leaves the same tests and outcomes, and the same table exactly if that worsening brought no time and no message that would be missed |
| `Verdicts.TornReportLosesTime` | src/runner.py:437-440 | a failing teardown that took time, cut short: the time is missing in the end |
| `Verdicts.VerdictsDistribute` | src/runner.py:427-430 | the verdicts of two batches of lines are those of both at once |
| `Verdicts.CountsSumToTotal` | src/reporting/models.py:143-163 | the four counts sum to the total |
| `RunResult.TestEvent.Worsen` | src/runner.py:438-440 | a strictly worse report takes over in place |
| `RunResult.TestEvent.HalfWorsen` | src/runner.py:438-440 | the same, interrupted before its last or its last two assignments |
| `RunResult.TestRunResult.Record` | src/runner.py:431-442 | one verdict updates the entries in place exactly as the value-level upsert |
| `RunResult.TestRunResult.DrainTestEvents` | src/runner.py:416-443 | a drain folds exactly the new complete lines into the entries |
| `RunResult.TestRunResult.DrainPacketEvents` | src/runner.py:525-551 | a drain appends exactly the events of the new complete lines |
| `RunResult.DrainBoth` | src/runner.py:348-351 | one poll of both logs leaves the one-pass results of everything complete so far |
| `RunResult.PollWhileRunning` | src/runner.py:346-353 | so does the whole polling loop, and each yield showed it |
| `RunResult.StreamRun` | src/runner.py:305-371 | what is saved, on a normal end and on an interrupt at the yield, in the sleep or anywhere inside a drain: tests and packets are those of one pass over all complete lines, except for a worsening or a drain of packets that was cut short, and exactly how they differ then |
| `RunResult.FinishCut` | src/runner.py:354-369 | the poll an interrupt cuts short, and the drains of the `finally` block that start over from the old offset |
| `RunResult.DoubledIff` | src/runner.py:354-369 | the saved packets are those of one pass exactly if the drain that was cut short had taken none |
| `RunResult.TornIff` | src/runner.py:354-369 | the saved tests and outcomes are always those of one pass, and their times and messages are exactly if no worsening was cut short that had some to lose |
| `RunResult.InterruptedDrainDoubles` | src/runner.py:354-369 | one packet and an interrupt in the drain that took it: it is saved twice |
| `PyText.IntReadsBack` | src/runner.py:216 | an integer written into an argument is the integer parsed from it |
| `PyText.IntIff` | src/gui/main_window.py:617 | a text is an integer exactly if it is digits with single underscores between them, perhaps behind a sign, perhaps with space around, and then the number the digits write |
| `Authority.SplitUndoesFormatIff` | src/gui/main_window.py:590-622 | splitting undoes formatting, for every port, exactly for the splittable hosts |
| `Authority.BracketsAreLost` | src/gui/main_window.py:607-610 | a host that brings its own brackets is read back without them, for every port |
| `Authority.FieldWithoutColon` | src/gui/main_window.py:611-613 | a field without a colon is a host without a port |
| `Authority.FieldWithColon` | src/gui/main_window.py:611-622 | around the last colon: host and port, a host alone, or an error for a port that is no number |
| `Authority.FieldInBrackets` | src/gui/main_window.py:607-622 | likewise for a bracketed host |
| `RunConfig.ResolvingTwiceIsResolvingOnce` | src/config.py:83-118 | the leg rule is idempotent |
| `RunConfig.TopologyIs` | src/cli/main.py:121-159 | a front leg plays the client against the proxy's address, and its port unless one is given; a back leg plays the server and is refused exactly without a mode or a backend; no leg leaves everything as configured |
| `Transport.CommandLine` | src/runner.py:197-243 | the argument list of every request, spelled out option by option |
| `Transport.ModulePath` | src/runner.py:170-177 | cut at its slashes the path of a module and submodule is `tests` and the names that are set |
| `Transport.TargetsArrive` | src/runner.py:170-177 | the subprocess is told exactly the explicit targets, or else the one path of module and submodule |
| `Transport.MarkersJoined` | src/runner.py:221-222 | cut at its spaces the marker filter is the markers with `and` between them |
| `Transport.RoleOfOptions` | conftest.py:50-61 | a subprocess started with leg `front` plays the client, with `back` the server, and without a leg the role it was given |
| `Transport.AimIs` | conftest.py:124-164 | the configuration every accepted request ends in, field by field |
| `Transport.ArgumentsReadBack` | src/runner.py:197-243 | the whole argument list is parsed back, token by token, as the request's targets, filters, switches and flag values, exactly if the parser takes each target and each filter value for what it is; a filter value taken for an option rejects the list |
| `Transport.FewerTargets` | src/runner.py:170-178 | if a target is taken for something else, fewer targets arrive than were sent |
| `Transport.TextsArrive` | src/runner.py:216-222 | of a list read back, targets and filters are those that were sent |
| `Transport.ValuesArrive` | src/runner.py:138-168 | for every flag the parser sees exactly the values the request sends for it, in order |
| `Transport.AcceptedIff` | src/cli/options.py:61-114 | the parser's value checks reject a request exactly for an unknown stack or proxy mode |
| `Transport.ConfigArrives` | conftest.py:124-164 | the receiving end rebuilds the configuration and applies the leg rule to it again |
| `Transport.AgreeIffResolved` | conftest.py:124-164 | for every request, the subprocess ends up with its configuration, targets and filters, whatever random port it draws, exactly when the request was resolved before it was sent and the parser takes its targets and filter values for what they are |
| `Transport.CliRunAgrees` | src/cli/main.py:121-159 | every run the command line lets through is resolved, so both ends agree, exactly when its filter values are accepted |
| `Transport.NameDecides` | src/runner.py:219-220 | a resolved run of a module with a test name is rejected if the parser takes the name for an option, and agrees otherwise |
| `Transport.DashedNames` | src/runner.py:219-220 | under the rule of `argparse` `-slow` is rejected, `-1` and `-x or y` are accepted unless they are options |
| `Metrics.RecountMore` | src/plotting/metrics.py:51-65 | one more event appends one entry to each recomputed series |
| `Metrics.MetricsBuffer.Add` | src/plotting/metrics.py:51-65 | the incremental update keeps every window equal to the tail of a recount |
| `Metrics.MetricsBuffer.TakeSnapshot` | src/plotting/metrics.py:67-75 | a snapshot is the tail of a recount of the events since the last clear |
| `Metrics.MetricsBuffer.Clear` | src/plotting/metrics.py:77-89 | clearing starts a new history |
| `Metrics.Replay` | src/plotting/metrics.py:51-89 | after any run of adds and clears the snapshot is the tail of a recount |
| `Metrics.SnapshotShape` | src/plotting/metrics.py:67-75 | five equal lengths, non-decreasing counts, sent plus received is the event's number |
| `Metrics.SeriesStep` | src/plotting/metrics.py:51-65 | from one entry to the next each series grows by what its event brought |
| `Sequence.MaskIsModulo` | src/utils/tcp_flags.py:54-60 | masking with ones is reduction modulo a power of two, for negative numbers too |
| `Sequence.Seq32IsModulo` | src/utils/tcp_flags.py:54-60 | `seq32` is reduction modulo 2^32 for every integer |
| `Sequence.TCPSequenceTracker.OnSend` | src/packet_engine/sequence.py:29-33 | returns the old number and advances by the payload and one for SYN or FIN, modulo 2^32 |
| `Sequence.TCPSequenceTracker.OnReceive` | src/packet_engine/sequence.py:35-37 | the acknowledgement of the segment, modulo 2^32 |
| `Sequence.Converse` | src/packet_engine/sequence.py:29-37 | over any conversation delivered in order each side's number is its start plus all it used, and each acknowledges exactly the other's number |
| `Sequence.AgreesWithStandardIff` | src/packet_engine/sequence.py:32 | the arithmetic is that of section 3.4 of RFC 9293 exactly when the segments with both SYN and FIN number a multiple of 2^32 |
| `Sequence.SynFinIsShort` | src/packet_engine/sequence.py:32 | one segment with both is counted one short |

## Left out

- Packet building, sniffing, ARP, capture files, everything asserted about a real device under test, and all widgets, plots and reports: their behaviour lives in libraries and hardware.
- IP-address text: a destination enters the SOCKS5 model as four octets, sixteen octets or a name, already classified; IDNA encoding of non-ASCII names likewise.
- JSON: an encoder to one line of printable ASCII and a decoder that undoes it on the events a run writes; report-log lines decode to a report or to nothing.
- `_extract_message` and the marker filter: one-branch lookups in the decoded report; their results are fields of the report.
- Response headers of CONNECT and the hint texts of refusals: nothing in the client depends on them.
- Callbacks (`on_test_event`, `on_packet_event`, `on_event`) and log messages.
- `int` of non-ASCII digits, and its limit of 4300 digits.
- HttpConnect.StubUndoesRequestIff: a request line that is not ASCII ends the stub's thread here; the original decodes UTF-8.
- EchoHandler.HandleTcp: one handler on its own; the counters under concurrent handlers are the subject of `Backend.dfy`.
- ProxyClient.ProxyClient.ReadUntilEof: past the limit only the length and order of what was read are stated, since the network decides the chunk sizes.
- The UDP loop of the backend, and restarting a backend or inducer whose threads outlived the join timeout: the code gives no guarantee there.
- RunResult.StreamRun: a second interrupt, inside the drains of the `finally` block, after which nothing is saved.
- Lines.TailingRefinesBatch: a file that shrinks between polls is not covered; the log files are only appended to.
- Transport.ArgumentsReadBack: option spellings `build_pytest_args` never produces (a value in the token after its flag, abbreviations), and a bare `--`, which ends the options in `argparse`.
- CycleFinder.FindCycle: an edge to a module that is not in the graph, which the original answers with a KeyError; the import graph it runs on has none.
- The launcher in front of the arguments, `DUTConfig.timeout` (it is not forwarded) and the allow-list check on IP networks.
- TestTreeWidget.Widget.CheckedTargets: the target text of a directory nested more than one level deep names only its last part in the original; texts are parameters here.
- The catalog, error classes, skip reasons, permissions, paths and option declarations: finite tables and one-branch facts.
