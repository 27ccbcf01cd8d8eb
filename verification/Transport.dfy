/** The device under test, and the rule that aims a run at one leg of a proxy. */
module RunConfig {
  import opened Basics

  datatype Role = Client | Server {
    function Value(): string {
      match this case Client => "client" case Server => "server"
    }
  }

  datatype ProxyLeg = Front | Back {
    function Value(): string {
      match this case Front => "front" case Back => "back"
    }

    function ImpliedRole(): Role {
      if Front? then Client else Server
    }
  }

  /** The socket timeout is not part of what a run hands to its subprocess. */
  datatype DUTConfig = DUTConfig(interface: string, targetIp: string, targetStack: string,
                                 targetMac: Option<string>, targetPort: Option<int>, sourcePort: Option<int>,
                                 role: Role, proxyLeg: Option<ProxyLeg>, allowedTargets: seq<string>) {
    /** `missing_required` finds nothing. */
    predicate Complete() {
      targetIp != "" && interface != "" && targetStack != ""
    }
  }

  function ResolveRole(leg: Option<ProxyLeg>, configured: Role): Role {
    if leg.Some? then leg.value.ImpliedRole() else configured
  }

  /** `value or None` for an optional text. */
  function NonEmpty(text: Option<string>): Option<string> {
    if text == Some("") then None else text
  }

  function ResolveLegTarget(leg: Option<ProxyLeg>, targetIp: string, targetPort: Option<int>,
                            proxyHost: Option<string>, proxyPort: Option<int>): (string, Option<int>) {
    if leg != Some(Front) then (targetIp, targetPort)
    else
      (if NonEmpty(proxyHost).Some? then proxyHost.value else targetIp,
       if targetPort.Some? then targetPort else proxyPort)
  }

  lemma ResolvingTwiceIsResolvingOnce(leg: Option<ProxyLeg>, configured: Role, targetIp: string,
                                      targetPort: Option<int>, proxyHost: Option<string>, proxyPort: Option<int>)
    ensures ResolveRole(leg, ResolveRole(leg, configured)) == ResolveRole(leg, configured)
    ensures var (ip, port) := ResolveLegTarget(leg, targetIp, targetPort, proxyHost, proxyPort);
            ResolveLegTarget(leg, ip, port, NonEmpty(proxyHost), proxyPort) == (ip, port)
  {
  }

  datatype UsageError = BackLegNeedsTraffic | BadArgument | MissingTarget

  /** `_resolve_topology`; a random port stands in where none is given. */
  function ResolveTopology(leg: Option<ProxyLeg>, configured: Role, dutIp: string, dutPort: Option<int>,
                           proxyMode: Option<string>, proxyHost: Option<string>, proxyPort: Option<int>,
                           backendHost: Option<string>, randomPort: int)
    : Result<(Option<ProxyLeg>, Role, string, int), UsageError>
  {
    var role := ResolveRole(leg, configured);
    var (ip, port) := ResolveLegTarget(leg, dutIp, dutPort, proxyHost, proxyPort);
    if leg == Some(Back) && !(NonEmpty(proxyMode).Some? && NonEmpty(backendHost).Some?) then Err(BackLegNeedsTraffic)
    else Ok((leg, role, ip, if port.Some? then port.value else randomPort))
  }

  /** What a command line is resolved to: a front leg plays the client against the
      proxy's address, and its port unless one was given; a back leg plays the server,
      and is refused unless there is a mode and a backend to drive traffic with; without
      a leg everything is as configured. A port that is nowhere is drawn. */
  lemma TopologyIs(leg: Option<ProxyLeg>, configured: Role, dutIp: string, dutPort: Option<int>,
                   proxyMode: Option<string>, proxyHost: Option<string>, proxyPort: Option<int>,
                   backendHost: Option<string>, randomPort: int)
    ensures var r := ResolveTopology(leg, configured, dutIp, dutPort, proxyMode, proxyHost, proxyPort, backendHost,
                                     randomPort);
            var unset := {None, Some("")};
            && (r.Err? <==> leg == Some(Back) && (proxyMode in unset || backendHost in unset))
            && (r.Err? ==> r.error == BackLegNeedsTraffic)
            && (r.Ok? ==>
                  && r.value.0 == leg
                  && (leg == Some(Front) ==> r.value.1 == Client)
                  && (leg == Some(Back) ==> r.value.1 == Server)
                  && (leg == None ==> r.value.1 == configured)
                  && r.value.2 == (if leg == Some(Front) && proxyHost !in unset then proxyHost.value else dutIp)
                  && r.value.3 == (if dutPort.Some? then dutPort.value
                                   else if leg == Some(Front) && proxyPort.Some? then proxyPort.value else randomPort))
  {
  }
}

/**
 A run's settings on their way through the argument list of the test subprocess:
 `build_pytest_args` at one end, the option parser and `dut_config` at the other.
 */
module Transport {
  import opened Basics
  import opened PyText
  import opened RunConfig

  // --- the flags ----------------------------------------------------------------

  datatype Flag =
    | ReportLog | TargetStack | RoleFlag | DutIp | DutIface | PayloadMode | PayloadSize | LiveEventsLog | CapturePcap
    | DutMac | DutPort | DutSourcePort | ProxyMode | ProxyLegFlag | AllowedTargets | DebugLog
    | ProxyHost | ProxyPort | BackendHost | BackendPort

  function FlagText(flag: Flag): string {
    match flag
    case ReportLog => "--report-log"
    case TargetStack => "--target-stack"
    case RoleFlag => "--role"
    case DutIp => "--dut-ip"
    case DutIface => "--dut-iface"
    case PayloadMode => "--payload-mode"
    case PayloadSize => "--payload-size"
    case LiveEventsLog => "--live-events-log"
    case CapturePcap => "--capture-pcap"
    case DutMac => "--dut-mac"
    case DutPort => "--dut-port"
    case DutSourcePort => "--dut-source-port"
    case ProxyMode => "--proxy-mode"
    case ProxyLegFlag => "--proxy-leg"
    case AllowedTargets => "--allowed-targets"
    case DebugLog => "--debug-log"
    case ProxyHost => "--proxy-host"
    case ProxyPort => "--proxy-port"
    case BackendHost => "--backend-host"
    case BackendPort => "--backend-port"
  }

  /** The option a parser knows by this name. */
  function FlagOf(text: string): Option<Flag> {
    if text == "--report-log" then Some(ReportLog)
    else if text == "--target-stack" then Some(TargetStack)
    else if text == "--role" then Some(RoleFlag)
    else if text == "--dut-ip" then Some(DutIp)
    else if text == "--dut-iface" then Some(DutIface)
    else if text == "--payload-mode" then Some(PayloadMode)
    else if text == "--payload-size" then Some(PayloadSize)
    else if text == "--live-events-log" then Some(LiveEventsLog)
    else if text == "--capture-pcap" then Some(CapturePcap)
    else if text == "--dut-mac" then Some(DutMac)
    else if text == "--dut-port" then Some(DutPort)
    else if text == "--dut-source-port" then Some(DutSourcePort)
    else if text == "--proxy-mode" then Some(ProxyMode)
    else if text == "--proxy-leg" then Some(ProxyLegFlag)
    else if text == "--allowed-targets" then Some(AllowedTargets)
    else if text == "--debug-log" then Some(DebugLog)
    else if text == "--proxy-host" then Some(ProxyHost)
    else if text == "--proxy-port" then Some(ProxyPort)
    else if text == "--backend-host" then Some(BackendHost)
    else if text == "--backend-port" then Some(BackendPort)
    else None
  }

  /** The second half of the flags. */
  predicate LaterFlag(flag: Flag) {
    flag.DutPort? || flag.DutSourcePort? || flag.ProxyMode? || flag.ProxyLegFlag? || flag.AllowedTargets?
    || flag.DebugLog? || flag.ProxyHost? || flag.ProxyPort? || flag.BackendHost? || flag.BackendPort?
  }

  lemma FlagReadsBack(flag: Flag)
    ensures FlagOf(FlagText(flag)) == Some(flag)
  {
    match flag {
      case ReportLog => case TargetStack => case RoleFlag => case DutIp => case DutIface =>
      case PayloadMode => case PayloadSize => case LiveEventsLog => case CapturePcap => case DutMac =>
      case _ => LaterFlagReadsBack(flag);
    }
  }

  lemma LaterFlagReadsBack(flag: Flag)
    requires LaterFlag(flag)
    ensures FlagOf(FlagText(flag)) == Some(flag)
  {
    match flag {
      case DutPort => case DutSourcePort => case ProxyMode => case ProxyLegFlag => case AllowedTargets =>
      case DebugLog => case ProxyHost => case ProxyPort => case BackendHost => case BackendPort =>
    }
  }

  lemma FlagIsLong(flag: Flag)
    ensures "--" <= FlagText(flag)
  {
  }

  lemma FlagHasNoEquals(flag: Flag)
    ensures '=' !in FlagText(flag)
  {
    match flag {
      case ReportLog => case TargetStack => case RoleFlag => case DutIp => case DutIface =>
      case PayloadMode => case PayloadSize => case LiveEventsLog => case CapturePcap => case DutMac =>
      case _ => LaterFlagHasNoEquals(flag);
    }
  }

  lemma LaterFlagHasNoEquals(flag: Flag)
    requires LaterFlag(flag)
    ensures '=' !in FlagText(flag)
  {
    match flag {
      case DutPort => case DutSourcePort => case ProxyMode => case ProxyLegFlag => case AllowedTargets =>
      case DebugLog => case ProxyHost => case ProxyPort => case BackendHost => case BackendPort =>
    }
  }

  // --- the sending end ---------------------------------------------------------------

  datatype Payload = Zeros | Ones | Random | Custom {
    function Value(): string {
      match this
      case Zeros => "zeros"
      case Ones => "ones"
      case Random => "random"
      case Custom => "custom"
    }
  }

  datatype RunRequest = RunRequest(
    config: DUTConfig, targets: seq<string>, testModule: Option<string>, submodule: Option<string>,
    testName: Option<string>, markers: seq<string>, payload: Payload, payloadSize: int,
    confirmVulnTests: bool, debug: bool, proxyMode: Option<string>, proxyHost: Option<string>,
    proxyPort: Option<int>, backendHost: Option<string>, backendPort: Option<int>)

  /** The files of a run. */
  datatype RunArtifacts = RunArtifacts(reportLog: string, packetEvents: string, capture: string, debugLog: string)

  function Written(n: Option<int>): Option<string> {
    if n.None? then None else Some(Str(n.value))
  }

  /** What a flag would carry: nothing means unset, and so does an empty text where
      the setting is optional; a zero is a value. */
  function Setting(request: RunRequest, artifacts: RunArtifacts, flag: Flag): Option<string> {
    match flag
    case ReportLog => Some(artifacts.reportLog)
    case TargetStack => Some(request.config.targetStack)
    case RoleFlag => Some(request.config.role.Value())
    case DutIp => Some(request.config.targetIp)
    case DutIface => Some(request.config.interface)
    case PayloadMode => Some(request.payload.Value())
    case PayloadSize => Some(Str(request.payloadSize))
    case LiveEventsLog => Some(artifacts.packetEvents)
    case CapturePcap => Some(artifacts.capture)
    case DutMac => NonEmpty(request.config.targetMac)
    case DutPort => Written(request.config.targetPort)
    case DutSourcePort => Written(request.config.sourcePort)
    case ProxyMode => NonEmpty(request.proxyMode)
    case ProxyLegFlag => if request.config.proxyLeg.Some? then Some(request.config.proxyLeg.value.Value()) else None
    case AllowedTargets => None
    case DebugLog => if request.debug then Some(artifacts.debugLog) else None
    case ProxyHost => NonEmpty(request.proxyHost)
    case ProxyPort => Written(request.proxyPort)
    case BackendHost => NonEmpty(request.backendHost)
    case BackendPort => Written(request.backendPort)
  }

  function FixedFlags(): seq<Flag> {
    [ReportLog, TargetStack, RoleFlag, DutIp, DutIface, PayloadMode, PayloadSize, LiveEventsLog, CapturePcap]
  }

  function OptionalFlags(): seq<Flag> {
    [DutMac, DutPort, DutSourcePort, ProxyMode, ProxyLegFlag]
  }

  function TopologyFlags(): seq<Flag> {
    [ProxyHost, ProxyPort, BackendHost, BackendPort]
  }

  /** `--flag=value` for every flag that is set. */
  function Emit(request: RunRequest, artifacts: RunArtifacts, flags: seq<Flag>): seq<string> {
    if flags == [] then []
    else
      var value := Setting(request, artifacts, flags[0]);
      (if value.Some? then [FlagText(flags[0]) + "=" + value.value] else []) + Emit(request, artifacts, flags[1..])
  }

  function Join(parts: seq<string>, separator: string): string {
    if parts == [] then ""
    else if |parts| == 1 then parts[0]
    else parts[0] + separator + Join(parts[1..], separator)
  }

  function Present(part: Option<string>): seq<string> {
    if NonEmpty(part).Some? then [part.value] else []
  }

  /** The explicit targets, or else the path of the module and submodule. */
  function TestTargets(request: RunRequest): seq<string> {
    if request.targets != [] then request.targets
    else [Join(["tests"] + Present(request.testModule) + Present(request.submodule), "/")]
  }

  function AllowedArgs(cidrs: seq<string>): seq<string> {
    if cidrs == [] then [] else [FlagText(AllowedTargets) + "=" + cidrs[0]] + AllowedArgs(cidrs[1..])
  }

  /** The topology addresses travel with a proxy mode or a leg only. */
  predicate SendsTopology(request: RunRequest) {
    NonEmpty(request.proxyMode).Some? || request.config.proxyLeg.Some?
  }

  /** The argument list behind the launcher. */
  function Arguments(request: RunRequest, artifacts: RunArtifacts): seq<string> {
    TestTargets(request) + (Emit(request, artifacts, FixedFlags())
    + (["-v"] + (Emit(request, artifacts, OptionalFlags())
    + (KeywordArgs(request) + (MarkerArgs(request) + (SwitchArgs(request) + (AllowedArgs(request.config.allowedTargets)
    + (Emit(request, artifacts, [DebugLog]) + TopologyArgs(request, artifacts)))))))))
  }

  function KeywordArgs(request: RunRequest): seq<string> {
    if NonEmpty(request.testName).Some? then ["-k", request.testName.value] else []
  }

  function MarkerArgs(request: RunRequest): seq<string> {
    if Markers(request).Some? then ["-m", Markers(request).value] else []
  }

  function SwitchArgs(request: RunRequest): seq<string> {
    if request.confirmVulnTests then ["--confirm-vuln-tests"] else []
  }

  function TopologyArgs(request: RunRequest, artifacts: RunArtifacts): seq<string> {
    if SendsTopology(request) then Emit(request, artifacts, TopologyFlags()) else []
  }

  // --- the option parser -----------------------------------------------------------------

  datatype Item =
    | Valued(flag: Flag, value: string)
    | Switch(name: string)
    | Keyword(text: string)
    | MarkExpr(text: string)
    | Target(text: string)

  predicate Dashed(token: string) {
    token != "" && token[0] == '-'
  }

  /** Which tokens the parser takes for options, beyond those of `Item`. */
  type Options = string -> bool

  ghost predicate Dashing(options: Options) {
    forall token: string :: options(token) ==> Dashed(token)
  }

  /** `-1`, `-.5`, `-1.5`. */
  predicate NegativeNumber(token: string) {
    && Dashed(token)
    && var (whole, fraction) := Partition(token[1..], '.');
       && (forall i :: 0 <= i < |whole| ==> IsDigit(whole[i]))
       && (forall i :: 0 <= i < |fraction| ==> IsDigit(fraction[i]))
       && (if '.' in token then fraction != "" else whole != "")
  }

  /** The rule of `argparse`, without abbreviations: an option it knows, alone or with
      a value attached, or what looks like one. */
  function Argparse(known: set<string>): Options {
    (token: string) =>
      && Dashed(token)
      && (|| token in known
          || (|token| > 1
              && (|| ('=' in token && Partition(token, '=').0 in known)
                  || (token[1] != '-' && token[..2] in known)
                  || (' ' !in token && !NegativeNumber(token)))))
  }

  /** `--flag=value` of a flag it knows. */
  function FlagIn(token: string): Option<Flag> {
    if Dashed(token) && '=' in token then FlagOf(Partition(token, '=').0) else None
  }

  function Single(options: Options, token: string): Option<Item> {
    if token == "-v" || token == "--confirm-vuln-tests" then Some(Switch(token))
    else if FlagIn(token).Some? then Some(Valued(FlagIn(token).value, Partition(token, '=').1))
    else if options(token) then None
    else Some(Target(token))
  }

  function Prepend(item: Item, rest: Option<seq<Item>>): Option<seq<Item>> {
    if rest.None? then None else Some([item] + rest.value)
  }

  predicate IsFilter(token: string) {
    token == "-k" || token == "-m"
  }

  /** What the parser makes of the first token, or of the first two. */
  function First(options: Options, args: seq<string>): Option<Item>
    requires args != []
  {
    if !IsFilter(args[0]) then Single(options, args[0])
    else if |args| < 2 || options(args[1]) then None
    else Some(if args[0] == "-k" then Keyword(args[1]) else MarkExpr(args[1]))
  }

  function Width(args: seq<string>): (n: nat)
    requires args != []
    ensures 0 < n <= |args|
  {
    if IsFilter(args[0]) && |args| >= 2 then 2 else 1
  }

  /** What the parser recognises, in order; nothing if it rejects the command line. */
  function Tokenize(options: Options, args: seq<string>): Option<seq<Item>> {
    if args == [] then Some([])
    else
      match First(options, args)
      case None => None
      case Some(item) => Prepend(item, Tokenize(options, args[Width(args)..]))
  }

  /** Every value given for a flag, in order. */
  function Values(items: seq<Item>, flag: Flag): seq<string> {
    if items == [] then []
    else
      (if items[0].Valued? && items[0].flag == flag then [items[0].value] else []) + Values(items[1..], flag)
  }

  datatype Kind = Targets | Keywords | MarkExprs

  function TextOf(item: Item, kind: Kind): seq<string> {
    match item
    case Target(text) => if kind == Targets then [text] else []
    case Keyword(text) => if kind == Keywords then [text] else []
    case MarkExpr(text) => if kind == MarkExprs then [text] else []
    case _ => []
  }

  /** Every target, or every value of a filter, in order. */
  function Texts(items: seq<Item>, kind: Kind): seq<string> {
    if items == [] then [] else TextOf(items[0], kind) + Texts(items[1..], kind)
  }

  /** The last one counts. */
  function Final(all: seq<string>): Option<string> {
    if all == [] then None else Some(all[|all| - 1])
  }

  function Value(items: seq<Item>, flag: Flag): Option<string> {
    Final(Values(items, flag))
  }

  /** The value checks of the option declarations. */
  predicate Accepts(flag: Flag, value: string) {
    match flag
    case RoleFlag => value == "client" || value == "server"
    case TargetStack => value == "linux" || value == "windows"
    case PayloadMode => value == "zeros" || value == "ones" || value == "random" || value == "custom"
    case ProxyMode => value == "transparent" || value == "http-connect" || value == "socks5"
    case ProxyLegFlag => value == "front" || value == "back"
    case DutPort => IntOf(value).Some?
    case DutSourcePort => IntOf(value).Some?
    case PayloadSize => IntOf(value).Some?
    case ProxyPort => IntOf(value).Some?
    case BackendPort => IntOf(value).Some?
    case _ => true
  }

  predicate Acceptable(items: seq<Item>) {
    forall flag: Flag :: AllAccepted(flag, Values(items, flag))
  }

  predicate AllAccepted(flag: Flag, values: seq<string>) {
    forall i :: 0 <= i < |values| ==> Accepts(flag, values[i])
  }

  // --- the receiving end --------------------------------------------------------------------

  function ReadInt(text: Option<string>): Option<int> {
    if text.None? then None else IntOf(text.value)
  }

  function OrEmpty(text: Option<string>): string {
    if text.Some? then text.value else ""
  }

  function SelectedProxyLeg(items: seq<Item>): Option<ProxyLeg> {
    match Value(items, ProxyLegFlag)
    case None => None
    case Some(text) => if text == "front" then Some(Front) else Some(Back)
  }

  function EffectiveRole(items: seq<Item>): Role {
    ResolveRole(SelectedProxyLeg(items), if Value(items, RoleFlag) == Some("server") then Server else Client)
  }

  /** `dut_config`: the leg rule again, then a random port if there is still none. */
  function DutConfigOf(items: seq<Item>, randomPort: int): DUTConfig {
    var leg := SelectedProxyLeg(items);
    var (ip, port) := ResolveLegTarget(leg, OrEmpty(Value(items, DutIp)), ReadInt(Value(items, DutPort)),
                                       Value(items, ProxyHost), ReadInt(Value(items, ProxyPort)));
    DUTConfig(OrEmpty(Value(items, DutIface)), ip, OrEmpty(Value(items, TargetStack)), Value(items, DutMac),
              Some(if port.Some? then port.value else randomPort), ReadInt(Value(items, DutSourcePort)),
              EffectiveRole(items), leg, Values(items, AllowedTargets))
  }

  /** What the subprocess runs, and against what. */
  datatype Aim = Aim(config: DUTConfig, targets: seq<string>, keyword: Option<string>, markers: Option<string>)

  function Receive(options: Options, args: seq<string>, randomPort: int): Result<Aim, UsageError> {
    match Tokenize(options, args)
    case None => Err(BadArgument)
    case Some(items) =>
      if !Acceptable(items) then Err(BadArgument)
      else
        var config := DutConfigOf(items, randomPort);
        if config.Complete() then
          Ok(Aim(config, Texts(items, Targets), Final(Texts(items, Keywords)), Final(Texts(items, MarkExprs))))
        else Err(MissingTarget)
  }

  // --- what arrives ---------------------------------------------------------------------------

  /** The parser takes every target for what it is. */
  predicate TargetsRead(options: Options, targets: seq<string>) {
    forall i :: 0 <= i < |targets| ==> ReadAsTarget(options, targets[i])
  }

  predicate ReadAsTarget(options: Options, token: string) {
    !IsFilter(token) && Single(options, token) == Some(Target(token))
  }

  /** The parser accepts the test name, or the markers, as the value of its filter. */
  predicate KeywordRead(options: Options, request: RunRequest) {
    NonEmpty(request.testName).Some? ==> !options(request.testName.value)
  }

  function Markers(request: RunRequest): Option<string> {
    if request.markers != [] then Some(Join(request.markers, " and ")) else None
  }

  predicate MarkersRead(options: Options, request: RunRequest) {
    Markers(request).Some? ==> !options(Markers(request).value)
  }

  /** The parser takes every token for what it was sent as. */
  predicate AllRead(options: Options, request: RunRequest) {
    TargetsRead(options, TestTargets(request)) && KeywordRead(options, request) && MarkersRead(options, request)
  }

  function EmitItems(request: RunRequest, artifacts: RunArtifacts, flags: seq<Flag>): seq<Item> {
    if flags == [] then []
    else
      var value := Setting(request, artifacts, flags[0]);
      (if value.Some? then [Valued(flags[0], value.value)] else []) + EmitItems(request, artifacts, flags[1..])
  }

  function TargetItems(targets: seq<string>): seq<Item> {
    seq(|targets|, i requires 0 <= i < |targets| => Target(targets[i]))
  }

  function AllowedItems(cidrs: seq<string>): seq<Item> {
    seq(|cidrs|, i requires 0 <= i < |cidrs| => Valued(AllowedTargets, cidrs[i]))
  }

  function KeywordItems(request: RunRequest): seq<Item> {
    if NonEmpty(request.testName).Some? then [Keyword(request.testName.value)] else []
  }

  function MarkerItems(request: RunRequest): seq<Item> {
    if Markers(request).Some? then [MarkExpr(Markers(request).value)] else []
  }

  function SwitchItems(request: RunRequest): seq<Item> {
    if request.confirmVulnTests then [Switch("--confirm-vuln-tests")] else []
  }

  function TopologyItems(request: RunRequest, artifacts: RunArtifacts): seq<Item> {
    if SendsTopology(request) then EmitItems(request, artifacts, TopologyFlags()) else []
  }

  /** The settings of a request, as the parser should see them. */
  function Items(request: RunRequest, artifacts: RunArtifacts): seq<Item> {
    TargetItems(TestTargets(request)) + (EmitItems(request, artifacts, FixedFlags()) + ([Switch("-v")]
    + (EmitItems(request, artifacts, OptionalFlags())
    + (KeywordItems(request) + (MarkerItems(request) + (SwitchItems(request)
    + (AllowedItems(request.config.allowedTargets) + (EmitItems(request, artifacts, [DebugLog])
    + TopologyItems(request, artifacts)))))))))
  }

  /** `args` is read as `items`, or rejected. */
  ghost predicate Reads(options: Options, args: seq<string>, items: Option<seq<Item>>) {
    Tokenize(options, args) == items
  }

  function Followed(items: seq<Item>, rest: Option<seq<Item>>): Option<seq<Item>> {
    if rest.None? then None else Some(items + rest.value)
  }

  lemma FirstStays(options: Options, args: seq<string>, more: seq<string>)
    requires args != [] && First(options, args).Some?
    ensures args + more != [] && First(options, args + more) == First(options, args)
    ensures Width(args + more) == Width(args) && (args + more)[Width(args)..] == args[Width(args)..] + more
  {
    hide Single;
  }

  lemma {:induction false} ReadsBoth(options: Options, a: seq<string>, items: seq<Item>,
                                     b: seq<string>, rest: Option<seq<Item>>)
    requires Reads(options, a, Some(items)) && Reads(options, b, rest)
    ensures Reads(options, a + b, Followed(items, rest))
    decreases |a|
  {
    hide First, Width;
    if a == [] {
      assert a + b == b && (rest.Some? ==> items + rest.value == rest.value);
    } else {
      FirstStays(options, a, b);
      var behind := a[Width(a)..];
      assert items == [items[0]] + items[1..];
      assert Tokenize(options, a + b) == Prepend(items[0], Tokenize(options, behind + b));
      ReadsBoth(options, behind, items[1..], b, rest);
      OneInFront(items, rest);
    }
  }

  lemma OneInFront(items: seq<Item>, rest: Option<seq<Item>>)
    requires items != []
    ensures Prepend(items[0], Followed(items[1..], rest)) == Followed(items, rest)
  {
    if rest.Some? {
      assert [items[0]] + (items[1..] + rest.value) == items + rest.value;
    }
  }

  lemma NotASwitch(token: string)
    requires "--" <= token && '=' in token
    ensures Dashed(token) && token != "-k" && token != "-m" && token != "-v" && token != "--confirm-vuln-tests"
  {
    assert '=' !in "--confirm-vuln-tests";
    assert token[1] == '-';
  }

  lemma FlagArgument(options: Options, flag: Flag, value: string)
    ensures Reads(options, [FlagText(flag) + "=" + value], Some([Valued(flag, value)]))
  {
    var token := FlagText(flag) + "=" + value;
    var name := FlagText(flag);
    FlagReadsBack(flag);
    FlagIsLong(flag);
    FlagHasNoEquals(flag);
    hide FlagText, FlagOf, Partition, Dashed;
    assert token == name + ['='] + value;
    assert token[|name|] == '=' && name <= token;
    PartitionAt(name, '=', value);
    NotASwitch(token);
    OneToken(options, token, Valued(flag, value));
  }

  lemma OneToken(options: Options, token: string, item: Item)
    requires Single(options, token) == Some(item) && !IsFilter(token)
    ensures Reads(options, [token], Some([item]))
  {
    var args: seq<string> := [token];
    assert args[1..] == [] && [item] + [] == [item];
    assert Tokenize(options, args) == Prepend(item, Tokenize(options, args[1..]));
  }

  lemma {:induction false} EmitReads(options: Options, request: RunRequest, artifacts: RunArtifacts, flags: seq<Flag>)
    ensures Reads(options, Emit(request, artifacts, flags), Some(EmitItems(request, artifacts, flags)))
  {
    if flags != [] {
      EmitReads(options, request, artifacts, flags[1..]);
      var value := Setting(request, artifacts, flags[0]);
      var rest := Emit(request, artifacts, flags[1..]);
      var items := EmitItems(request, artifacts, flags[1..]);
      hide FlagText, Setting, Reads;
      if value.Some? {
        FlagArgument(options, flags[0], value.value);
        ReadsBoth(options, [FlagText(flags[0]) + "=" + value.value], [Valued(flags[0], value.value)],
                  rest, Some(items));
      } else {
        assert [] + rest == rest && [] + items == items;
      }
    }
  }

  lemma FirstTarget(targets: seq<string>)
    requires targets != []
    ensures targets == [targets[0]] + targets[1..]
    ensures TargetItems(targets) == [Target(targets[0])] + TargetItems(targets[1..])
  {
  }

  lemma {:induction false} TargetsReadBack(options: Options, targets: seq<string>)
    requires TargetsRead(options, targets)
    ensures Reads(options, targets, Some(TargetItems(targets)))
  {
    if targets == [] {
      assert TargetItems(targets) == [];
    } else {
      FirstTarget(targets);
      assert ReadAsTarget(options, targets[0]) && TargetsRead(options, targets[1..]);
      hide TargetItems, TargetsRead, Tokenize, Single;
      TargetsReadBack(options, targets[1..]);
      OneToken(options, targets[0], Target(targets[0]));
      ReadsBoth(options, [targets[0]], [Target(targets[0])], targets[1..], Some(TargetItems(targets[1..])));
    }
  }

  lemma {:induction false} AllowedRead(options: Options, cidrs: seq<string>)
    ensures Reads(options, AllowedArgs(cidrs), Some(AllowedItems(cidrs)))
  {
    if cidrs == [] {
      assert AllowedItems(cidrs) == [];
    } else {
      assert AllowedItems(cidrs) == [Valued(AllowedTargets, cidrs[0])] + AllowedItems(cidrs[1..]);
      hide FlagText, Reads, AllowedItems;
      AllowedRead(options, cidrs[1..]);
      FlagArgument(options, AllowedTargets, cidrs[0]);
      ReadsBoth(options, [FlagText(AllowedTargets) + "=" + cidrs[0]], [Valued(AllowedTargets, cidrs[0])],
                AllowedArgs(cidrs[1..]), Some(AllowedItems(cidrs[1..])));
    }
  }

  /** A filter flag and its value, unless the parser takes the value for an option. */
  lemma TwoTokens(options: Options, flag: string, text: string, b: seq<string>, rest: Option<seq<Item>>)
    requires IsFilter(flag) && Reads(options, b, rest)
    ensures Reads(options, [flag, text] + b,
                  if options(text) then None
                  else Followed([if flag == "-k" then Keyword(text) else MarkExpr(text)], rest))
  {
    var args := [flag, text] + b;
    assert args[0] == flag && args[1] == text && args[2..] == b;
  }

  lemma KeywordOrNot(options: Options, request: RunRequest, b: seq<string>, rest: Option<seq<Item>>)
    requires Reads(options, b, rest)
    ensures Reads(options, KeywordArgs(request) + b,
                  if KeywordRead(options, request) then Followed(KeywordItems(request), rest) else None)
  {
    hide Tokenize;
    if NonEmpty(request.testName).Some? {
      TwoTokens(options, "-k", request.testName.value, b, rest);
    } else {
      assert [] + b == b && (rest.Some? ==> [] + rest.value == rest.value);
    }
  }

  lemma MarkersOrNot(options: Options, request: RunRequest, b: seq<string>, rest: Option<seq<Item>>)
    requires Reads(options, b, rest)
    ensures Reads(options, MarkerArgs(request) + b,
                  if MarkersRead(options, request) then Followed(MarkerItems(request), rest) else None)
  {
    hide Tokenize;
    if Markers(request).Some? {
      TwoTokens(options, "-m", Markers(request).value, b, rest);
    } else {
      assert [] + b == b && (rest.Some? ==> [] + rest.value == rest.value);
    }
  }

  lemma SwitchesRead(options: Options, request: RunRequest)
    ensures Reads(options, SwitchArgs(request), Some(SwitchItems(request)))
    ensures Reads(options, ["-v"], Some([Switch("-v")]))
  {
    OneToken(options, "-v", Switch("-v"));
    OneToken(options, "--confirm-vuln-tests", Switch("--confirm-vuln-tests"));
  }

  lemma TopologyReads(options: Options, request: RunRequest, artifacts: RunArtifacts)
    ensures Reads(options, TopologyArgs(request, artifacts), Some(TopologyItems(request, artifacts)))
  {
    EmitReads(options, request, artifacts, TopologyFlags());
  }

  /** What follows the filters on the command line, and its items. */
  function TailArgs(request: RunRequest, artifacts: RunArtifacts): seq<string> {
    SwitchArgs(request) + (AllowedArgs(request.config.allowedTargets)
    + (Emit(request, artifacts, [DebugLog]) + TopologyArgs(request, artifacts)))
  }

  function TailItems(request: RunRequest, artifacts: RunArtifacts): seq<Item> {
    SwitchItems(request) + (AllowedItems(request.config.allowedTargets)
    + (EmitItems(request, artifacts, [DebugLog]) + TopologyItems(request, artifacts)))
  }

  lemma {:induction false} TailReads(options: Options, request: RunRequest, artifacts: RunArtifacts)
    ensures Reads(options, TailArgs(request, artifacts), Some(TailItems(request, artifacts)))
  {
    hide Reads, Emit, EmitItems, TopologyArgs, TopologyItems, SwitchArgs, SwitchItems, AllowedArgs, AllowedItems;
    var cidrs := request.config.allowedTargets;
    SwitchesRead(options, request);
    AllowedRead(options, cidrs);
    EmitReads(options, request, artifacts, [DebugLog]);
    TopologyReads(options, request, artifacts);
    var args, items := Emit(request, artifacts, [DebugLog]) + TopologyArgs(request, artifacts),
                       EmitItems(request, artifacts, [DebugLog]) + TopologyItems(request, artifacts);
    ReadsBoth(options, Emit(request, artifacts, [DebugLog]), EmitItems(request, artifacts, [DebugLog]),
              TopologyArgs(request, artifacts), Some(TopologyItems(request, artifacts)));
    ReadsBoth(options, AllowedArgs(cidrs), AllowedItems(cidrs), args, Some(items));
    ReadsBoth(options, SwitchArgs(request), SwitchItems(request), AllowedArgs(cidrs) + args,
              Some(AllowedItems(cidrs) + items));
  }

  /** The filters and what follows them. */
  lemma {:induction false} FiltersRead(options: Options, request: RunRequest, artifacts: RunArtifacts)
    ensures Reads(options, KeywordArgs(request) + (MarkerArgs(request) + TailArgs(request, artifacts)),
                  if KeywordRead(options, request) && MarkersRead(options, request)
                  then Some(KeywordItems(request) + (MarkerItems(request) + TailItems(request, artifacts))) else None)
  {
    hide Reads, TailArgs, TailItems, KeywordArgs, KeywordItems, MarkerArgs, MarkerItems, KeywordRead, MarkersRead;
    var tail := Some(TailItems(request, artifacts));
    TailReads(options, request, artifacts);
    MarkersOrNot(options, request, TailArgs(request, artifacts), tail);
    KeywordOrNot(options, request, MarkerArgs(request) + TailArgs(request, artifacts),
                 if MarkersRead(options, request) then Followed(MarkerItems(request), tail) else None);
  }

  /** What follows the targets on the command line. */
  function SettingArgs(request: RunRequest, artifacts: RunArtifacts, fixed: seq<Flag>): seq<string> {
    Emit(request, artifacts, fixed) + (["-v"] + (Emit(request, artifacts, OptionalFlags())
    + (KeywordArgs(request) + (MarkerArgs(request) + TailArgs(request, artifacts)))))
  }

  function SettingItems(request: RunRequest, artifacts: RunArtifacts, fixed: seq<Flag>): seq<Item> {
    EmitItems(request, artifacts, fixed) + ([Switch("-v")] + (EmitItems(request, artifacts, OptionalFlags())
    + (KeywordItems(request) + (MarkerItems(request) + TailItems(request, artifacts)))))
  }

  lemma {:induction false} SettingsRead(options: Options, request: RunRequest, artifacts: RunArtifacts,
                                        fixed: seq<Flag>)
    ensures Reads(options, SettingArgs(request, artifacts, fixed),
                  if KeywordRead(options, request) && MarkersRead(options, request)
                  then Some(SettingItems(request, artifacts, fixed)) else None)
  {
    hide Reads, Emit, EmitItems, KeywordArgs, KeywordItems, MarkerArgs, MarkerItems, TailArgs, TailItems,
         KeywordRead, MarkersRead;
    FiltersRead(options, request, artifacts);
    EmitReads(options, request, artifacts, fixed);
    EmitReads(options, request, artifacts, OptionalFlags());
    SwitchesRead(options, request);
    var filters := KeywordArgs(request) + (MarkerArgs(request) + TailArgs(request, artifacts));
    var rest := if KeywordRead(options, request) && MarkersRead(options, request)
                then Some(KeywordItems(request) + (MarkerItems(request) + TailItems(request, artifacts))) else None;
    var a4, i4 := Emit(request, artifacts, OptionalFlags()) + filters,
                  Followed(EmitItems(request, artifacts, OptionalFlags()), rest);
    ReadsBoth(options, Emit(request, artifacts, OptionalFlags()), EmitItems(request, artifacts, OptionalFlags()),
              filters, rest);
    ReadsBoth(options, ["-v"], [Switch("-v")], a4, i4);
    ReadsBoth(options, Emit(request, artifacts, fixed), EmitItems(request, artifacts, fixed),
              ["-v"] + a4, Followed([Switch("-v")], i4));
  }

  /** A whole command line is read back, token by token, as the settings it was
      built from -- targets, filters and switches in order, and every flag's value --
      exactly when the parser takes no target and no value of a filter for something
      else. */
  lemma {:induction false} ArgumentsReadBack(options: Options, request: RunRequest, artifacts: RunArtifacts)
    ensures Tokenize(options, Arguments(request, artifacts)) == Some(Items(request, artifacts))
       <==> AllRead(options, request)
    ensures TargetsRead(options, TestTargets(request)) && !AllRead(options, request) ==>
              Tokenize(options, Arguments(request, artifacts)) == None
  {
    hide Tokenize, Arguments, Items, TestTargets, KeywordRead, MarkersRead, TargetsRead;
    if TargetsRead(options, TestTargets(request)) {
      PlainReadsBack(options, request, artifacts);
    } else if Tokenize(options, Arguments(request, artifacts)) == Some(Items(request, artifacts)) {
      FewerTargets(options, request, artifacts);
      TextsArrive(request, artifacts, Targets);
    }
  }

  lemma {:induction false} PlainReadsBack(options: Options, request: RunRequest, artifacts: RunArtifacts)
    requires TargetsRead(options, TestTargets(request))
    ensures Tokenize(options, Arguments(request, artifacts))
         == if AllRead(options, request) then Some(Items(request, artifacts)) else None
  {
    var settings, items := SettingArgs(request, artifacts, FixedFlags()),
                           SettingItems(request, artifacts, FixedFlags());
    ArgumentsInTwo(request, artifacts);
    hide SettingArgs, SettingItems, Arguments, Items, TestTargets, KeywordRead, MarkersRead, Tokenize, TargetsRead;
    SettingsRead(options, request, artifacts, FixedFlags());
    TargetsReadBack(options, TestTargets(request));
    ReadsBoth(options, TestTargets(request), TargetItems(TestTargets(request)), settings,
              if KeywordRead(options, request) && MarkersRead(options, request) then Some(items) else None);
  }

  lemma ArgumentsInTwo(request: RunRequest, artifacts: RunArtifacts)
    ensures Arguments(request, artifacts) == TestTargets(request) + SettingArgs(request, artifacts, FixedFlags())
    ensures Items(request, artifacts)
         == TargetItems(TestTargets(request)) + SettingItems(request, artifacts, FixedFlags())
  {
    hide Emit, EmitItems, SwitchArgs, SwitchItems, MarkerArgs, MarkerItems, KeywordArgs, KeywordItems,
         TopologyArgs, TopologyItems, AllowedArgs, AllowedItems, TargetItems, TestTargets;
  }

  // --- targets that are not read as such ------------------------------------------------------

  lemma {:induction false} TextsOfBoth(a: seq<Item>, b: seq<Item>, kind: Kind)
    ensures Texts(a + b, kind) == Texts(a, kind) + Texts(b, kind)
  {
    hide TextOf;
    if a == [] {
      assert a + b == b;
    } else {
      assert (a + b)[1..] == a[1..] + b;
      TextsOfBoth(a[1..], b, kind);
    }
  }

  /** Neither targets nor filters. */
  ghost predicate Plain(items: seq<Item>) {
    forall i :: 0 <= i < |items| ==> items[i].Valued? || items[i].Switch?
  }

  lemma {:induction false} NoTexts(items: seq<Item>, kind: Kind)
    requires Plain(items)
    ensures Texts(items, kind) == []
  {
    if items != [] { NoTexts(items[1..], kind); }
  }

  lemma {:induction false} EmittedIsPlain(request: RunRequest, artifacts: RunArtifacts, flags: seq<Flag>)
    ensures Plain(EmitItems(request, artifacts, flags))
  {
    if flags != [] {
      hide Setting;
      EmittedIsPlain(request, artifacts, flags[1..]);
    }
  }

  lemma TailIsPlain(request: RunRequest, artifacts: RunArtifacts)
    ensures Plain(TailItems(request, artifacts))
  {
    hide EmitItems;
    EmittedIsPlain(request, artifacts, [DebugLog]);
    EmittedIsPlain(request, artifacts, TopologyFlags());
  }

  function Own(request: RunRequest, kind: Kind): seq<string> {
    match kind
    case Targets => TestTargets(request)
    case Keywords => AsList(NonEmpty(request.testName))
    case MarkExprs => AsList(Markers(request))
  }

  /** Of a setting, only the filters are texts. */
  lemma {:induction false} TextsOfSettings(request: RunRequest, artifacts: RunArtifacts, fixed: seq<Flag>, kind: Kind)
    ensures Texts(SettingItems(request, artifacts, fixed), kind) == if kind == Targets then [] else Own(request, kind)
  {
    var f, v, o, k, m, tail := EmitItems(request, artifacts, fixed), [Switch("-v")],
      EmitItems(request, artifacts, OptionalFlags()), KeywordItems(request), MarkerItems(request),
      TailItems(request, artifacts);
    FilterTexts(request, kind);
    EmittedIsPlain(request, artifacts, fixed);
    EmittedIsPlain(request, artifacts, OptionalFlags());
    TailIsPlain(request, artifacts);
    assert Plain(v);
    assert SettingItems(request, artifacts, fixed) == f + (v + (o + (k + (m + tail))));
    hide *;
    NoTexts(f, kind);
    NoTexts(v, kind);
    NoTexts(o, kind);
    NoTexts(tail, kind);
    TextsOfBoth(f, v + (o + (k + (m + tail))), kind);
    TextsOfBoth(v, o + (k + (m + tail)), kind);
    TextsOfBoth(o, k + (m + tail), kind);
    TextsOfBoth(k, m + tail, kind);
    TextsOfBoth(m, tail, kind);
  }

  lemma FilterTexts(request: RunRequest, kind: Kind)
    ensures Texts(KeywordItems(request), kind) + Texts(MarkerItems(request), kind)
         == if kind == Targets then [] else Own(request, kind)
  {
    hide Join, TestTargets;
    var k, m := KeywordItems(request), MarkerItems(request);
    assert k != [] ==> k[1..] == [];
    assert m != [] ==> m[1..] == [];
  }

  lemma {:induction false} TextsOfTargets(targets: seq<string>, kind: Kind)
    ensures Texts(TargetItems(targets), kind) == if kind == Targets then targets else []
  {
    if targets != [] {
      assert TargetItems(targets)[1..] == TargetItems(targets[1..]);
      TextsOfTargets(targets[1..], kind);
    }
  }

  /** Of a command line read back, the targets and filters are those that were sent. */
  lemma {:induction false} TextsArrive(request: RunRequest, artifacts: RunArtifacts, kind: Kind)
    ensures Texts(Items(request, artifacts), kind) == Own(request, kind)
  {
    ArgumentsInTwo(request, artifacts);
    hide Items, SettingItems, Texts, TestTargets, Markers, TargetItems;
    TextsOfBoth(TargetItems(TestTargets(request)), SettingItems(request, artifacts, FixedFlags()), kind);
    TextsOfTargets(TestTargets(request), kind);
    TextsOfSettings(request, artifacts, FixedFlags(), kind);
  }

  /** No target among what is read of these tokens. */
  ghost predicate Targetless(options: Options, args: seq<string>) {
    var items := Tokenize(options, args);
    items.Some? ==> Texts(items.value, Targets) == []
  }

  /** In front of settings, there are no more targets than tokens, and as many only if
      each token is one. The last token may swallow the first setting. */
  lemma {:induction false} CountTargets(options: Options, targets: seq<string>, settings: seq<string>)
    requires settings != [] && Targetless(options, settings) && Targetless(options, settings[1..])
    ensures var items := Tokenize(options, targets + settings);
            items.Some? ==>
              && |Texts(items.value, Targets)| <= |targets|
              && (|Texts(items.value, Targets)| == |targets| ==> TargetsRead(options, targets))
    decreases |targets|
  {
    hide Tokenize, Texts, TargetsRead, ReadAsTarget;
    var args := targets + settings;
    if targets == [] {
      NothingToRead(options);
      assert args == settings;
    } else if Tokenize(options, args).Some? {
      TextsOfFirst(options, args);
      BehindFirst(targets, settings);
      if Width(args) <= |targets| {
        CountTargets(options, targets[Width(args)..], settings);
        FirstAndRest(options, targets);
      }
    }
  }

  lemma NothingToRead(options: Options)
    ensures TargetsRead(options, [])
  {
  }

  lemma BehindFirst(targets: seq<string>, settings: seq<string>)
    requires targets != [] && settings != []
    ensures var args := targets + settings; var n := Width(args);
            args[0] == targets[0]
            && args[n..] == if n <= |targets| then targets[n..] + settings else settings[1..]
  {
    hide IsFilter;
  }

  lemma FirstAndRest(options: Options, targets: seq<string>)
    requires targets != []
    ensures ReadAsTarget(options, targets[0]) && TargetsRead(options, targets[1..]) ==> TargetsRead(options, targets)
  {
    hide ReadAsTarget;
    assert targets == [targets[0]] + targets[1..];
  }

  lemma TextsOfFirst(options: Options, args: seq<string>)
    requires args != [] && Tokenize(options, args).Some?
    ensures Tokenize(options, args[Width(args)..]).Some?
    ensures var own := |Texts(Tokenize(options, args).value, Targets)|
                       - |Texts(Tokenize(options, args[Width(args)..]).value, Targets)|;
            own == 0 || (own == 1 && Width(args) == 1 && ReadAsTarget(options, args[0]))
  {
    var items, item := Tokenize(options, args).value, First(options, args).value;
    var rest := Tokenize(options, args[Width(args)..]).value;
    assert items == [item] + rest && items[1..] == rest;
    FirstIsTarget(options, args);
    hide Tokenize, First, Width, ReadAsTarget;
  }

  lemma FirstIsTarget(options: Options, args: seq<string>)
    requires args != [] && First(options, args).Some?
    ensures First(options, args).value.Target? ==> Width(args) == 1 && ReadAsTarget(options, args[0])
  {
    hide FlagIn, Partition;
  }

  /** With a target that is read as something else, fewer targets arrive. */
  lemma {:induction false} FewerTargets(options: Options, request: RunRequest, artifacts: RunArtifacts)
    requires !TargetsRead(options, TestTargets(request))
    ensures var items := Tokenize(options, Arguments(request, artifacts));
            items.Some? ==> |Texts(items.value, Targets)| < |TestTargets(request)|
  {
    var settings := SettingArgs(request, artifacts, FixedFlags());
    SettingsAreTargetless(options, request, artifacts, FixedFlags());
    SettingsAreTargetless(options, request, artifacts, FixedFlags()[1..]);
    WithoutTheFirst(request, artifacts);
    ArgumentsInTwo(request, artifacts);
    hide *;
    CountTargets(options, TestTargets(request), settings);
  }

  lemma {:induction false} SettingsAreTargetless(options: Options, request: RunRequest, artifacts: RunArtifacts,
                                                 fixed: seq<Flag>)
    ensures Targetless(options, SettingArgs(request, artifacts, fixed))
  {
    SettingsRead(options, request, artifacts, fixed);
    TextsOfSettings(request, artifacts, fixed, Targets);
    hide SettingArgs, SettingItems, Texts, Tokenize, KeywordRead, MarkersRead;
  }

  lemma WithoutTheFirst(request: RunRequest, artifacts: RunArtifacts)
    ensures var settings := SettingArgs(request, artifacts, FixedFlags());
            settings != [] && settings[1..] == SettingArgs(request, artifacts, FixedFlags()[1..])
  {
    var flags := FixedFlags();
    hide FlagText, KeywordArgs, MarkerArgs, TailArgs;
    assert Emit(request, artifacts, flags)[1..] == Emit(request, artifacts, flags[1..]);
  }

  // --- the values of each flag --------------------------------------------------------------

  lemma {:induction false} ValuesOfBoth(a: seq<Item>, b: seq<Item>, flag: Flag)
    ensures Values(a + b, flag) == Values(a, flag) + Values(b, flag)
  {
    if a == [] {
      assert a + b == b;
    } else {
      assert (a + b)[1..] == a[1..] + b;
      ValuesOfBoth(a[1..], b, flag);
    }
  }

  function AsList(value: Option<string>): seq<string> {
    if value.Some? then [value.value] else []
  }

  ghost predicate NoDuplicates(flags: seq<Flag>) {
    forall i, j :: 0 <= i < j < |flags| ==> flags[i] != flags[j]
  }

  lemma HeadIsElsewhereNot(flags: seq<Flag>, flag: Flag)
    requires NoDuplicates(flags) && flags != []
    ensures NoDuplicates(flags[1..]) && flags[0] !in flags[1..]
    ensures flag in flags <==> flag == flags[0] || flag in flags[1..]
  {
    assert flags == [flags[0]] + flags[1..];
  }

  lemma ValuesOfOne(flag: Flag, value: Option<string>, wanted: Flag)
    ensures var head: seq<Item> := if value.Some? then [Valued(flag, value.value)] else [];
            Values(head, wanted) == if wanted == flag then AsList(value) else []
  {
    if value.Some? {
      var head := [Valued(flag, value.value)];
      assert head[1..] == [];
    }
  }

  lemma {:induction false} ValuesOfEmitted(request: RunRequest, artifacts: RunArtifacts, flags: seq<Flag>, flag: Flag)
    requires NoDuplicates(flags)
    ensures Values(EmitItems(request, artifacts, flags), flag)
         == if flag in flags then AsList(Setting(request, artifacts, flag)) else []
  {
    if flags != [] {
      HeadIsElsewhereNot(flags, flag);
      hide Setting, NoDuplicates, AsList, Values;
      var value := Setting(request, artifacts, flags[0]);
      var head: seq<Item> := if value.Some? then [Valued(flags[0], value.value)] else [];
      ValuesOfOne(flags[0], value, flag);
      ValuesOfEmitted(request, artifacts, flags[1..], flag);
      ValuesOfBoth(head, EmitItems(request, artifacts, flags[1..]), flag);
    } else {
      assert Values([], flag) == [];
    }
  }

  lemma {:induction false} ValuesOfAllowed(cidrs: seq<string>, flag: Flag)
    ensures Values(AllowedItems(cidrs), flag) == if flag == AllowedTargets then cidrs else []
  {
    if cidrs != [] {
      assert AllowedItems(cidrs)[1..] == AllowedItems(cidrs[1..]);
      ValuesOfAllowed(cidrs[1..], flag);
    }
  }

  lemma {:induction false} NoValues(items: seq<Item>, flag: Flag)
    requires forall i :: 0 <= i < |items| ==> !items[i].Valued?
    ensures Values(items, flag) == []
  {
    if items != [] { NoValues(items[1..], flag); }
  }

  /** What a request sends for a flag. */
  function Sends(request: RunRequest, artifacts: RunArtifacts, flag: Flag): seq<string> {
    if flag == AllowedTargets then request.config.allowedTargets
    else if flag in TopologyFlags() && !SendsTopology(request) then []
    else AsList(Setting(request, artifacts, flag))
  }

  /** Every flag belongs to one group. */
  lemma GroupOf(flag: Flag)
    ensures flag in FixedFlags() ==> flag !in OptionalFlags() && flag !in TopologyFlags() && flag != DebugLog
    ensures flag in OptionalFlags() ==> flag !in TopologyFlags() && flag != DebugLog
    ensures flag in TopologyFlags() ==> flag != DebugLog
    ensures (flag in FixedFlags() || flag in OptionalFlags() || flag in TopologyFlags() || flag == DebugLog)
       <==> flag != AllowedTargets
  {
    IsFixed(flag);
    IsOptional(flag);
    IsTopology(flag);
    hide *;
  }

  lemma IsFixed(flag: Flag)
    ensures flag in FixedFlags()
       <==> flag.ReportLog? || flag.TargetStack? || flag.RoleFlag? || flag.DutIp? || flag.DutIface?
            || flag.PayloadMode? || flag.PayloadSize? || flag.LiveEventsLog? || flag.CapturePcap?
  {
  }

  lemma IsOptional(flag: Flag)
    ensures flag in OptionalFlags()
       <==> flag.DutMac? || flag.DutPort? || flag.DutSourcePort? || flag.ProxyMode? || flag.ProxyLegFlag?
  {
  }

  lemma IsTopology(flag: Flag)
    ensures flag in TopologyFlags() <==> flag.ProxyHost? || flag.ProxyPort? || flag.BackendHost? || flag.BackendPort?
  {
  }

  lemma NoDuplicateFlags()
    ensures NoDuplicates(FixedFlags()) && NoDuplicates(OptionalFlags()) && NoDuplicates(TopologyFlags())
    ensures NoDuplicates([DebugLog])
  {
  }

  lemma {:induction false} ValuesArrive(request: RunRequest, artifacts: RunArtifacts, flag: Flag)
    ensures Values(Items(request, artifacts), flag) == Sends(request, artifacts, flag)
  {
    hide Setting, Values, EmitItems, AllowedItems, TargetItems, KeywordItems, MarkerItems, SwitchItems, TopologyItems,
         Items, FixedFlags, OptionalFlags, TopologyFlags, SendsTopology, TestTargets, AsList;
    GroupOf(flag);
    NamelessPieces(request, flag);
    PiecesArrive(request, artifacts, flag);
    TopologyArrives(request, artifacts, flag);
    OneAfterTheOther(request, artifacts, flag);
  }

  lemma NamelessPieces(request: RunRequest, flag: Flag)
    ensures Values(TargetItems(TestTargets(request)), flag) == Values([Switch("-v")], flag) == []
    ensures Values(KeywordItems(request), flag) == Values(MarkerItems(request), flag) == []
    ensures Values(SwitchItems(request), flag) == []
  {
    hide TestTargets, Join, Values;
    NoValues(TargetItems(TestTargets(request)), flag);
    NoValues([Switch("-v")], flag);
    NoValues(KeywordItems(request), flag);
    NoValues(MarkerItems(request), flag);
    NoValues(SwitchItems(request), flag);
  }

  lemma TopologyArrives(request: RunRequest, artifacts: RunArtifacts, flag: Flag)
    ensures Values(TopologyItems(request, artifacts), flag)
         == if flag in TopologyFlags() && SendsTopology(request) then AsList(Setting(request, artifacts, flag)) else []
  {
    NoDuplicateFlags();
    NoValues([], flag);
    hide Setting, EmitItems, NoDuplicates, TopologyFlags, Values, AsList, SendsTopology;
    ValuesOfEmitted(request, artifacts, TopologyFlags(), flag);
  }

  lemma PiecesArrive(request: RunRequest, artifacts: RunArtifacts, flag: Flag)
    ensures Values(AllowedItems(request.config.allowedTargets), flag)
         == if flag == AllowedTargets then request.config.allowedTargets else []
    ensures Values(EmitItems(request, artifacts, FixedFlags()), flag)
         == if flag in FixedFlags() then AsList(Setting(request, artifacts, flag)) else []
    ensures Values(EmitItems(request, artifacts, OptionalFlags()), flag)
         == if flag in OptionalFlags() then AsList(Setting(request, artifacts, flag)) else []
    ensures Values(EmitItems(request, artifacts, [DebugLog]), flag)
         == if flag == DebugLog then AsList(Setting(request, artifacts, flag)) else []
  {
    hide *;
    NoDuplicateFlags();
    ValuesOfAllowed(request.config.allowedTargets, flag);
    ValuesOfEmitted(request, artifacts, FixedFlags(), flag);
    ValuesOfEmitted(request, artifacts, OptionalFlags(), flag);
    ValuesOfEmitted(request, artifacts, [DebugLog], flag);
  }

  lemma OneAfterTheOther(request: RunRequest, artifacts: RunArtifacts, flag: Flag)
    ensures Values(Items(request, artifacts), flag)
         == Values(TargetItems(TestTargets(request)), flag) + (Values(EmitItems(request, artifacts, FixedFlags()), flag)
            + (Values([Switch("-v")], flag) + (Values(EmitItems(request, artifacts, OptionalFlags()), flag)
            + (Values(KeywordItems(request), flag) + (Values(MarkerItems(request), flag)
            + (Values(SwitchItems(request), flag) + (Values(AllowedItems(request.config.allowedTargets), flag)
            + (Values(EmitItems(request, artifacts, [DebugLog]), flag)
            + Values(TopologyItems(request, artifacts), flag)))))))))
  {
    hide Values, EmitItems, AllowedItems, TargetItems, KeywordItems, MarkerItems, SwitchItems, TopologyItems;
    var i9 := EmitItems(request, artifacts, [DebugLog]) + TopologyItems(request, artifacts);
    var i8 := AllowedItems(request.config.allowedTargets) + i9;
    var i7 := SwitchItems(request) + i8;
    var i6 := MarkerItems(request) + i7;
    var i5 := KeywordItems(request) + i6;
    var i4 := EmitItems(request, artifacts, OptionalFlags()) + i5;
    var i3 := [Switch("-v")] + i4;
    var i2 := EmitItems(request, artifacts, FixedFlags()) + i3;
    ValuesOfBoth(TargetItems(TestTargets(request)), i2, flag);
    ValuesOfBoth(EmitItems(request, artifacts, FixedFlags()), i3, flag);
    ValuesOfBoth([Switch("-v")], i4, flag);
    ValuesOfBoth(EmitItems(request, artifacts, OptionalFlags()), i5, flag);
    ValuesOfBoth(KeywordItems(request), i6, flag);
    ValuesOfBoth(MarkerItems(request), i7, flag);
    ValuesOfBoth(SwitchItems(request), i8, flag);
    ValuesOfBoth(AllowedItems(request.config.allowedTargets), i9, flag);
    ValuesOfBoth(EmitItems(request, artifacts, [DebugLog]), TopologyItems(request, artifacts), flag);
  }

  // --- agreement ------------------------------------------------------------------------------

  /** What the subprocess should be aimed at: the same target, where an empty MAC
      address is an unset one. */
  function Expected(config: DUTConfig): DUTConfig {
    config.(targetMac := NonEmpty(config.targetMac))
  }

  /** The run that a request asks for. */
  function Sent(request: RunRequest): Aim {
    Aim(Expected(request.config), TestTargets(request), NonEmpty(request.testName), Markers(request))
  }

  predicate KnownStack(name: string) {
    name == "linux" || name == "windows"
  }

  predicate KnownMode(name: Option<string>) {
    name in {None, Some(""), Some("transparent"), Some("http-connect"), Some("socks5")}
  }

  /** A request that has been through the leg rule already: role and address are
      those the rule gives, and the port is a number. */
  predicate Resolved(request: RunRequest) {
    var config := request.config;
    && config.Complete() && KnownStack(config.targetStack) && KnownMode(request.proxyMode)
    && config.role == ResolveRole(config.proxyLeg, config.role)
    && config.targetPort.Some?
    && ResolveLegTarget(config.proxyLeg, config.targetIp, config.targetPort, request.proxyHost, request.proxyPort)
       == (config.targetIp, config.targetPort)
  }

  lemma {:induction false} ValueArrives(request: RunRequest, artifacts: RunArtifacts, flag: Flag)
    requires flag != AllowedTargets && (flag in TopologyFlags() ==> SendsTopology(request))
    ensures Value(Items(request, artifacts), flag) == Setting(request, artifacts, flag)
  {
    ValuesArrive(request, artifacts, flag);
    hide Setting, Items, Values;
  }

  lemma WrittenReadsBack(n: Option<int>)
    ensures ReadInt(Written(n)) == n
  {
    if n.Some? { IntReadsBack(n.value); }
  }

  /** The parser's value checks stop a request only at its stack and proxy mode. */
  lemma {:induction false} AcceptedIff(request: RunRequest, artifacts: RunArtifacts)
    ensures Acceptable(Items(request, artifacts))
       <==> KnownStack(request.config.targetStack) && KnownMode(request.proxyMode)
  {
    hide Items, Values, Setting, Accepts, KnownStack, KnownMode, Sends, AllAccepted;
    forall flag: Flag
      ensures AllAccepted(flag, Values(Items(request, artifacts), flag)) <==> Fits(request, flag)
    {
      ValuesArrive(request, artifacts, flag);
      SettingAccepted(request, artifacts, flag);
      SentAccepted(request, artifacts, flag, Fits(request, flag));
    }
    assert Fits(request, TargetStack) <==> KnownStack(request.config.targetStack);
    assert Fits(request, ProxyMode) <==> KnownMode(request.proxyMode);
    var all := Items(request, artifacts);
    assert AllAccepted(TargetStack, Values(all, TargetStack)) <==> Fits(request, TargetStack);
    assert AllAccepted(ProxyMode, Values(all, ProxyMode)) <==> Fits(request, ProxyMode);
  }

  lemma SentAccepted(request: RunRequest, artifacts: RunArtifacts, flag: Flag, ok: bool)
    requires var setting := Setting(request, artifacts, flag); (setting.Some? ==> Accepts(flag, setting.value)) <==> ok
    requires flag in TopologyFlags() || flag == AllowedTargets ==> ok
    ensures AllAccepted(flag, Sends(request, artifacts, flag)) <==> ok
  {
    hide Setting, TopologyFlags, SendsTopology;
    if flag != AllowedTargets {
      hide Accepts;
      var setting := Setting(request, artifacts, flag);
      if setting.Some? { assert AsList(setting)[0] == setting.value; }
    }
  }

  predicate Fits(request: RunRequest, flag: Flag) {
    && (flag == TargetStack ==> KnownStack(request.config.targetStack))
    && (flag == ProxyMode ==> KnownMode(request.proxyMode))
  }

  lemma SettingAccepted(request: RunRequest, artifacts: RunArtifacts, flag: Flag)
    ensures Setting(request, artifacts, flag).Some? ==>
              (Accepts(flag, Setting(request, artifacts, flag).value) <==> Fits(request, flag))
    ensures Setting(request, artifacts, flag).None? ==> Fits(request, flag)
  {
    hide Str, IntOf;
    IntReadsBack(request.payloadSize);
    WrittenReadsBack(request.config.targetPort);
    WrittenReadsBack(request.config.sourcePort);
    WrittenReadsBack(request.proxyPort);
    WrittenReadsBack(request.backendPort);
  }

  /** Every setting the leg rule and the configuration look at, on arrival. */
  lemma {:induction false} ConfigArrives(request: RunRequest, artifacts: RunArtifacts, randomPort: int)
    ensures var config := request.config;
            var (ip, port) := ResolveLegTarget(config.proxyLeg, config.targetIp, config.targetPort,
                                               request.proxyHost, request.proxyPort);
            DutConfigOf(Items(request, artifacts), randomPort)
            == Expected(config.(targetIp := ip, role := ResolveRole(config.proxyLeg, config.role),
                                targetPort := Some(if port.Some? then port.value else randomPort)))
  {
    hide Items, Value, Values, Setting, Sends, ReadInt, SelectedProxyLeg, EffectiveRole, ResolveRole, NonEmpty,
         Role.Value, ProxyLeg.Value;
    var config := request.config;
    PlainSettingsArrive(request, artifacts);
    RoleArrives(request, artifacts);
    AllowListArrives(request, artifacts);
    NonEmptyTwice(request.proxyHost);
    if config.proxyLeg.Some? { AddressesArrive(request, artifacts); }
  }

  lemma NonEmptyTwice(text: Option<string>)
    ensures NonEmpty(NonEmpty(text)) == NonEmpty(text) && (NonEmpty(text).Some? ==> NonEmpty(text) == text)
  {
  }

  lemma AllowListArrives(request: RunRequest, artifacts: RunArtifacts)
    ensures Values(Items(request, artifacts), AllowedTargets) == request.config.allowedTargets
  {
    hide Items, Values;
    ValuesArrive(request, artifacts, AllowedTargets);
  }

  lemma {:induction false} RoleArrives(request: RunRequest, artifacts: RunArtifacts)
    ensures var items, config := Items(request, artifacts), request.config;
            && SelectedProxyLeg(items) == config.proxyLeg
            && EffectiveRole(items) == ResolveRole(config.proxyLeg, config.role)
  {
    hide Items, Value;
    PlainSettingsArrive(request, artifacts);
  }

  lemma {:induction false} PlainSettingsArrive(request: RunRequest, artifacts: RunArtifacts)
    ensures var items, config := Items(request, artifacts), request.config;
            && Value(items, DutIface) == Some(config.interface) && Value(items, TargetStack) == Some(config.targetStack)
            && Value(items, DutIp) == Some(config.targetIp) && Value(items, DutMac) == NonEmpty(config.targetMac)
            && Value(items, RoleFlag) == Some(config.role.Value())
            && Value(items, ProxyLegFlag)
               == (if config.proxyLeg.Some? then Some(config.proxyLeg.value.Value()) else None)
            && ReadInt(Value(items, DutPort)) == config.targetPort
            && ReadInt(Value(items, DutSourcePort)) == config.sourcePort
  {
    hide Items, Value, ReadInt, Str;
    ValueArrives(request, artifacts, DutIface);
    ValueArrives(request, artifacts, TargetStack);
    ValueArrives(request, artifacts, DutIp);
    ValueArrives(request, artifacts, DutMac);
    ValueArrives(request, artifacts, RoleFlag);
    ValueArrives(request, artifacts, ProxyLegFlag);
    ValueArrives(request, artifacts, DutPort);
    ValueArrives(request, artifacts, DutSourcePort);
    WrittenReadsBack(request.config.targetPort);
    WrittenReadsBack(request.config.sourcePort);
  }

  /** The front address arrives whenever the leg rule will look at it. */
  lemma {:induction false} AddressesArrive(request: RunRequest, artifacts: RunArtifacts)
    requires request.config.proxyLeg.Some?
    ensures var items := Items(request, artifacts);
            && Value(items, ProxyHost) == NonEmpty(request.proxyHost)
            && ReadInt(Value(items, ProxyPort)) == request.proxyPort
  {
    hide Items, Value, ReadInt, Str;
    ValueArrives(request, artifacts, ProxyHost);
    ValueArrives(request, artifacts, ProxyPort);
    WrittenReadsBack(request.proxyPort);
  }

  /** The subprocess ends up with the front end's configuration, targets and filters,
      whatever random port it draws, exactly when the request was resolved before it
      was sent and the parser takes its targets and filter values for what they are. */
  lemma {:induction false} AgreeIffResolved(options: Options, request: RunRequest, artifacts: RunArtifacts,
                                            randomPort: int)
    ensures Receive(options, Arguments(request, artifacts), randomPort) == Ok(Sent(request))
       <==> Resolved(request) && AllRead(options, request)
  {
    hide Arguments, Items, Tokenize, Acceptable, DutConfigOf, KnownStack, KnownMode, ResolveRole,
         NonEmpty, TestTargets, TargetsRead, KeywordRead, MarkersRead, Markers, Texts, Final;
    ArgumentsReadBack(options, request, artifacts);
    if AllRead(options, request) {
      AcceptedIff(request, artifacts);
      ConfigArrives(request, artifacts, randomPort);
      TextsArrive(request, artifacts, Targets);
      FiltersArrive(request, artifacts);
      var aim := Aim(DutConfigOf(Items(request, artifacts), randomPort), TestTargets(request),
                     NonEmpty(request.testName), Markers(request));
      assert Receive(options, Arguments(request, artifacts), randomPort)
          == if !Acceptable(Items(request, artifacts)) then Err(BadArgument)
             else if aim.config.Complete() then Ok(aim) else Err(MissingTarget);
    } else if !TargetsRead(options, TestTargets(request)) {
      FewerTargets(options, request, artifacts);
    }
  }

  lemma FiltersArrive(request: RunRequest, artifacts: RunArtifacts)
    ensures Final(Texts(Items(request, artifacts), Keywords)) == NonEmpty(request.testName)
    ensures Final(Texts(Items(request, artifacts), MarkExprs)) == Markers(request)
  {
    hide Items, Texts, NonEmpty, Markers;
    TextsArrive(request, artifacts, Keywords);
    TextsArrive(request, artifacts, MarkExprs);
  }

  // --- the command line and its meaning, spelled out ----------------------------------------------

  /** An option that is there if its text is set and not empty. */
  function IfSet(name: string, text: Option<string>): seq<string> {
    if text.Some? && text.value != "" then [name + text.value] else []
  }

  function IfGiven(name: string, n: Option<int>): seq<string> {
    if n.Some? then [name + Str(n.value)] else []
  }

  /** The topology is not typed for a run without a proxy mode and without a leg. */
  function IfProxied(request: RunRequest, tokens: seq<string>): seq<string> {
    if request.proxyMode in {None, Some("")} && request.config.proxyLeg == None then [] else tokens
  }

  /** What is typed for a flag. */
  function Typed(request: RunRequest, artifacts: RunArtifacts, flag: Flag): seq<string> {
    var c := request.config;
    match flag
    case ReportLog => ["--report-log=" + artifacts.reportLog]
    case TargetStack => ["--target-stack=" + c.targetStack]
    case RoleFlag => ["--role=" + (match c.role case Client => "client" case Server => "server")]
    case DutIp => ["--dut-ip=" + c.targetIp]
    case DutIface => ["--dut-iface=" + c.interface]
    case PayloadMode =>
      ["--payload-mode=" + (match request.payload
                            case Zeros => "zeros"
                            case Ones => "ones"
                            case Random => "random"
                            case Custom => "custom")]
    case PayloadSize => ["--payload-size=" + Str(request.payloadSize)]
    case LiveEventsLog => ["--live-events-log=" + artifacts.packetEvents]
    case CapturePcap => ["--capture-pcap=" + artifacts.capture]
    case DutMac => IfSet("--dut-mac=", c.targetMac)
    case DutPort => IfGiven("--dut-port=", c.targetPort)
    case DutSourcePort => IfGiven("--dut-source-port=", c.sourcePort)
    case ProxyMode => IfSet("--proxy-mode=", request.proxyMode)
    case ProxyLegFlag =>
      (match c.proxyLeg
       case None => []
       case Some(leg) => ["--proxy-leg=" + (match leg case Front => "front" case Back => "back")])
    case AllowedTargets =>
      var cidrs := c.allowedTargets;
      seq(|cidrs|, i requires 0 <= i < |cidrs| => "--allowed-targets=" + cidrs[i])
    case DebugLog => if request.debug then ["--debug-log=" + artifacts.debugLog] else []
    case ProxyHost => IfProxied(request, IfSet("--proxy-host=", request.proxyHost))
    case ProxyPort => IfProxied(request, IfGiven("--proxy-port=", request.proxyPort))
    case BackendHost => IfProxied(request, IfSet("--backend-host=", request.backendHost))
    case BackendPort => IfProxied(request, IfGiven("--backend-port=", request.backendPort))
  }

  function AllTyped(request: RunRequest, artifacts: RunArtifacts, flags: seq<Flag>): seq<string> {
    if flags == [] then []
    else Typed(request, artifacts, flags[0]) + AllTyped(request, artifacts, flags[1..])
  }

  function Token(request: RunRequest, artifacts: RunArtifacts, flag: Flag): seq<string> {
    match Setting(request, artifacts, flag)
    case None => []
    case Some(value) => [FlagText(flag) + "=" + value]
  }

  lemma FirstTokens(request: RunRequest, artifacts: RunArtifacts, flag: Flag)
    requires !LaterFlag(flag)
    ensures Token(request, artifacts, flag) == Typed(request, artifacts, flag)
  {
    FirstNames();
    hide FlagText, Str;
    match flag {
      case ReportLog => case TargetStack => case RoleFlag => case DutIp => case DutIface =>
      case PayloadMode => case PayloadSize => case LiveEventsLog => case CapturePcap => case DutMac =>
    }
  }

  lemma FirstNames()
    ensures FlagText(ReportLog) + "=" == "--report-log=" && FlagText(TargetStack) + "=" == "--target-stack="
    ensures FlagText(RoleFlag) + "=" == "--role=" && FlagText(DutIp) + "=" == "--dut-ip="
    ensures FlagText(DutIface) + "=" == "--dut-iface=" && FlagText(PayloadMode) + "=" == "--payload-mode="
    ensures FlagText(PayloadSize) + "=" == "--payload-size=" && FlagText(DutMac) + "=" == "--dut-mac="
    ensures FlagText(LiveEventsLog) + "=" == "--live-events-log=" && FlagText(CapturePcap) + "=" == "--capture-pcap="
  {
  }

  lemma LaterNames()
    ensures FlagText(DutPort) + "=" == "--dut-port=" && FlagText(DutSourcePort) + "=" == "--dut-source-port="
    ensures FlagText(ProxyMode) + "=" == "--proxy-mode=" && FlagText(ProxyLegFlag) + "=" == "--proxy-leg="
    ensures FlagText(DebugLog) + "=" == "--debug-log="
    ensures FlagText(ProxyHost) + "=" == "--proxy-host=" && FlagText(ProxyPort) + "=" == "--proxy-port="
    ensures FlagText(BackendHost) + "=" == "--backend-host=" && FlagText(BackendPort) + "=" == "--backend-port="
  {
  }

  lemma LaterTokens(request: RunRequest, artifacts: RunArtifacts, flag: Flag)
    requires LaterFlag(flag) && flag != AllowedTargets && (flag in TopologyFlags() ==> SendsTopology(request))
    ensures Token(request, artifacts, flag) == Typed(request, artifacts, flag)
  {
    LaterNames();
    assert flag in TopologyFlags() ==> request.proxyMode !in {None, Some("")} || request.config.proxyLeg != None;
    IsTopology(flag);
    hide FlagText, Str, TopologyFlags, SendsTopology;
    match flag {
      case DutPort => case DutSourcePort => case ProxyMode => case ProxyLegFlag =>
      case DebugLog => case ProxyHost => case ProxyPort => case BackendHost => case BackendPort =>
    }
  }

  lemma {:induction false} EmitIsTyped(request: RunRequest, artifacts: RunArtifacts, flags: seq<Flag>)
    requires forall i :: 0 <= i < |flags| ==>
               flags[i] != AllowedTargets && (flags[i] in TopologyFlags() ==> SendsTopology(request))
    ensures Emit(request, artifacts, flags) == AllTyped(request, artifacts, flags)
  {
    if flags != [] {
      EmitIsTyped(request, artifacts, flags[1..]);
      assert Emit(request, artifacts, flags)
          == Token(request, artifacts, flags[0]) + Emit(request, artifacts, flags[1..]);
      hide Setting, FlagText, Typed, Token;
      if LaterFlag(flags[0]) {
        LaterTokens(request, artifacts, flags[0]);
      } else {
        FirstTokens(request, artifacts, flags[0]);
      }
    }
  }

  lemma {:induction false} NothingTyped(request: RunRequest, artifacts: RunArtifacts)
    requires !SendsTopology(request)
    ensures AllTyped(request, artifacts, TopologyFlags()) == []
  {
    assert request.proxyMode in {None, Some("")} && request.config.proxyLeg == None;
    var flags := TopologyFlags();
    assert forall i :: 0 <= i < |flags| ==> Typed(request, artifacts, flags[i]) == [];
    hide Typed;
    AllEmpty(request, artifacts, flags);
  }

  lemma {:induction false} AllEmpty(request: RunRequest, artifacts: RunArtifacts, flags: seq<Flag>)
    requires forall i :: 0 <= i < |flags| ==> Typed(request, artifacts, flags[i]) == []
    ensures AllTyped(request, artifacts, flags) == []
  {
    hide Typed;
    if flags != [] { AllEmpty(request, artifacts, flags[1..]); }
  }

  lemma TopologyTyped(request: RunRequest, artifacts: RunArtifacts)
    ensures TopologyArgs(request, artifacts) == AllTyped(request, artifacts, TopologyFlags())
  {
    if SendsTopology(request) {
      GroupOf(AllowedTargets);
      hide Emit, Typed, AllTyped, TopologyFlags;
      EmitIsTyped(request, artifacts, TopologyFlags());
    } else {
      NothingTyped(request, artifacts);
    }
  }

  lemma {:induction false} AllowedTyped(request: RunRequest, artifacts: RunArtifacts)
    ensures AllowedArgs(request.config.allowedTargets) == Typed(request, artifacts, AllowedTargets)
  {
    AllowedSpelled(request.config.allowedTargets);
  }

  lemma {:induction false} AllowedSpelled(cidrs: seq<string>)
    ensures AllowedArgs(cidrs) == seq(|cidrs|, i requires 0 <= i < |cidrs| => "--allowed-targets=" + cidrs[i])
  {
    if cidrs != [] {
      AllowedSpelled(cidrs[1..]);
      assert FlagText(AllowedTargets) + "=" == "--allowed-targets=";
    }
  }

  lemma OthersTyped(request: RunRequest, artifacts: RunArtifacts)
    ensures Emit(request, artifacts, FixedFlags()) == AllTyped(request, artifacts, FixedFlags())
    ensures Emit(request, artifacts, OptionalFlags()) == AllTyped(request, artifacts, OptionalFlags())
    ensures Emit(request, artifacts, [DebugLog]) == AllTyped(request, artifacts, [DebugLog])
  {
    forall flag: Flag
      ensures flag in FixedFlags() || flag in OptionalFlags() || flag == DebugLog ==>
                flag != AllowedTargets && flag !in TopologyFlags()
    {
      GroupOf(flag);
    }
    hide Emit, Typed, AllTyped, FixedFlags, OptionalFlags, TopologyFlags;
    EmitIsTyped(request, artifacts, FixedFlags());
    EmitIsTyped(request, artifacts, OptionalFlags());
    EmitIsTyped(request, artifacts, [DebugLog]);
  }

  /** The whole command line of every request, as it is typed. */
  lemma {:induction false} CommandLine(request: RunRequest, artifacts: RunArtifacts)
    ensures Arguments(request, artifacts)
         == TestTargets(request)
            + (AllTyped(request, artifacts, [ReportLog, TargetStack, RoleFlag, DutIp, DutIface, PayloadMode,
                                             PayloadSize, LiveEventsLog, CapturePcap])
            + (["-v"]
            + (AllTyped(request, artifacts, [DutMac, DutPort, DutSourcePort, ProxyMode, ProxyLegFlag])
            + ((if request.testName in {None, Some("")} then [] else ["-k", request.testName.value])
            + ((if request.markers == [] then [] else ["-m", Join(request.markers, " and ")])
            + ((if request.confirmVulnTests then ["--confirm-vuln-tests"] else [])
            + (Typed(request, artifacts, AllowedTargets)
            + (AllTyped(request, artifacts, [DebugLog])
            + AllTyped(request, artifacts, [ProxyHost, ProxyPort, BackendHost, BackendPort])))))))))
  {
    OthersTyped(request, artifacts);
    AllowedTyped(request, artifacts);
    TopologyTyped(request, artifacts);
    hide Emit, Typed, AllTyped, TestTargets, Join, TopologyArgs, AllowedArgs;
  }

  // --- the targets and markers, cut apart again ---------------------------------------------------

  lemma {:induction false} SplitUndoesJoin(parts: seq<string>, c: char)
    requires parts != [] && forall i :: 0 <= i < |parts| ==> c !in parts[i]
    ensures Split(Join(parts, [c]), c) == parts
  {
    if |parts| == 1 {
      assert Find(parts[0], c) == |parts[0]|;
    } else {
      SplitUndoesJoin(parts[1..], c);
      SplitAt(parts[0], c, Join(parts[1..], [c]));
      assert parts == [parts[0]] + parts[1..];
    }
  }

  /** With a name without slashes for each, a module and submodule become one path:
      cut at its slashes it is `tests` and the names that are set. */
  lemma {:induction false} ModulePath(request: RunRequest)
    requires request.targets == []
    requires request.testModule.Some? ==> '/' !in request.testModule.value
    requires request.submodule.Some? ==> '/' !in request.submodule.value
    ensures |TestTargets(request)| == 1
    ensures Split(TestTargets(request)[0], '/')
         == ["tests"] + (if request.testModule in {None, Some("")} then [] else [request.testModule.value])
                      + (if request.submodule in {None, Some("")} then [] else [request.submodule.value])
  {
    var parts := ["tests"] + Present(request.testModule) + Present(request.submodule);
    assert '/' !in "tests";
    hide Join;
    SplitUndoesJoin(parts, '/');
  }

  /** What the subprocess is told to run: the explicit targets, or else the one path of
      the module and submodule. */
  lemma {:induction false} TargetsArrive(options: Options, request: RunRequest, artifacts: RunArtifacts)
    requires Tokenize(options, Arguments(request, artifacts)).Some? && AllRead(options, request)
    ensures var found := Texts(Tokenize(options, Arguments(request, artifacts)).value, Targets);
            && (request.targets != [] ==> found == request.targets)
            && (request.targets == [] ==> |found| == 1)
            && (request.targets == [] && (request.testModule.Some? ==> '/' !in request.testModule.value)
                && (request.submodule.Some? ==> '/' !in request.submodule.value) ==>
                  Split(found[0], '/')
                  == ["tests"] + (if request.testModule in {None, Some("")} then [] else [request.testModule.value])
                               + (if request.submodule in {None, Some("")} then [] else [request.submodule.value]))
  {
    ArgumentsReadBack(options, request, artifacts);
    TextsArrive(request, artifacts, Targets);
    hide Tokenize, Arguments, Items, Texts, AllRead, Join, Split;
    if request.targets == [] && (request.testModule.Some? ==> '/' !in request.testModule.value)
       && (request.submodule.Some? ==> '/' !in request.submodule.value) {
      ModulePath(request);
    }
  }

  function Alternating(words: seq<string>, between: string): seq<string> {
    if |words| <= 1 then words else [words[0], between] + Alternating(words[1..], between)
  }

  /** All markers are asked for: cut at its spaces, their filter is the markers with
      `and` between them. */
  lemma {:induction false} MarkersJoined(markers: seq<string>)
    requires markers != [] && forall i :: 0 <= i < |markers| ==> ' ' !in markers[i]
    ensures Split(Join(markers, " and "), ' ') == Alternating(markers, "and")
  {
    if |markers| == 1 {
      assert Find(markers[0], ' ') == |markers[0]|;
    } else {
      var rest := Join(markers[1..], " and ");
      assert Join(markers, " and ") == markers[0] + " and " + rest;
      assert markers[0] in markers;
      hide Join, Split;
      MarkersJoined(markers[1..]);
      AndApart(markers[0], rest);
    }
  }

  lemma AndApart(first: string, rest: string)
    requires ' ' !in first
    ensures Split(first + " and " + rest, ' ') == [first, "and"] + Split(rest, ' ')
  {
    hide Split;
    assert first + " and " + rest == first + [' '] + ("and" + [' '] + rest);
    assert ' ' !in "and";
    SplitAt(first, ' ', "and" + [' '] + rest);
    SplitAt("and", ' ', rest);
  }

  // --- the role at the receiving end ----------------------------------------------------------------

  /** The role a subprocess plays, by the values of its options. */
  lemma RoleOfOptions(items: seq<Item>, randomPort: int)
    ensures var config, leg := DutConfigOf(items, randomPort), Value(items, ProxyLegFlag);
            && (leg == Some("front") ==> config.role == Client && config.proxyLeg == Some(Front))
            && (leg == Some("back") ==> config.role == Server && config.proxyLeg == Some(Back))
            && (leg == None ==>
                  && config.proxyLeg == None
                  && (Value(items, RoleFlag) == Some("server") ==> config.role == Server)
                  && (Value(items, RoleFlag) == Some("client") ==> config.role == Client))
  {
    hide Value, ReadInt, ResolveLegTarget;
  }

  /** Whatever a request says, a subprocess that accepts it probes a front leg as the
      client, observes a back leg as the server, and plays the requested role without a
      leg; on a front leg it aims at the proxy's address, and at its port unless one was
      given. */
  lemma {:induction false} AimIs(options: Options, request: RunRequest, artifacts: RunArtifacts, randomPort: int)
    requires AllRead(options, request) && Receive(options, Arguments(request, artifacts), randomPort).Ok?
    ensures var c, got := request.config, Receive(options, Arguments(request, artifacts), randomPort).value.config;
            var unset := {None, Some("")};
            && got.proxyLeg == c.proxyLeg
            && (c.proxyLeg == Some(Front) ==> got.role == Client)
            && (c.proxyLeg == Some(Back) ==> got.role == Server)
            && (c.proxyLeg == None ==> got.role == c.role)
            && got.targetIp
               == (if c.proxyLeg == Some(Front) && request.proxyHost !in unset then request.proxyHost.value
                   else c.targetIp)
            && got.targetPort
               == Some(if c.targetPort.Some? then c.targetPort.value
                       else if c.proxyLeg == Some(Front) && request.proxyPort.Some? then request.proxyPort.value
                       else randomPort)
            && got.interface == c.interface && got.targetStack == c.targetStack && got.sourcePort == c.sourcePort
            && got.targetMac == (if c.targetMac in unset then None else c.targetMac)
            && got.allowedTargets == c.allowedTargets
  {
    ArgumentsReadBack(options, request, artifacts);
    ConfigArrives(request, artifacts, randomPort);
    hide Arguments, Items, Tokenize, Acceptable, DutConfigOf, Texts, AllRead;
  }

  // --- the command line front end ---------------------------------------------------------------

  /** A request as `netstack-cli run` builds it from the resolved topology. */
  function CliRequest(request: RunRequest, topology: (Option<ProxyLeg>, Role, string, int)): RunRequest {
    request.(config := request.config.(proxyLeg := topology.0, role := topology.1, targetIp := topology.2,
                                       targetPort := Some(topology.3)))
  }

  /** What `_resolve_topology` makes of the options of a command line. */
  function CliTopology(given: RunRequest, randomPort: int): Result<(Option<ProxyLeg>, Role, string, int), UsageError> {
    var c := given.config;
    ResolveTopology(c.proxyLeg, c.role, c.targetIp, c.targetPort, given.proxyMode, given.proxyHost, given.proxyPort,
                    given.backendHost, randomPort)
  }

  /** A run that `_resolve_topology` lets through is resolved, so the subprocess runs
      what the command line asked for, exactly when the parser accepts the values of
      its filters. A command line names no targets. */
  lemma {:induction false} CliRunAgrees(options: Options, given: RunRequest, artifacts: RunArtifacts,
                                        randomPort: int, drawn: int)
    requires Dashing(options) && given.targets == []
    requires given.config.interface != "" && KnownStack(given.config.targetStack) && KnownMode(given.proxyMode)
    requires CliTopology(given, randomPort).Ok? && CliTopology(given, randomPort).value.2 != ""
    ensures var request := CliRequest(given, CliTopology(given, randomPort).value);
            Receive(options, Arguments(request, artifacts), drawn) == Ok(Sent(request))
            <==> KeywordRead(options, given) && MarkersRead(options, given)
  {
    var request := CliRequest(given, CliTopology(given, randomPort).value);
    assert Resolved(request);
    assert KeywordRead(options, request) == KeywordRead(options, given);
    assert MarkersRead(options, request) == MarkersRead(options, given);
    ModuleIsTarget(options, request);
    hide Resolved, TestTargets, TargetsRead, KeywordRead, MarkersRead, Receive, Arguments;
    AgreeIffResolved(options, request, artifacts, drawn);
  }

  /** The path of a module does not look like an option. */
  lemma ModuleIsTarget(options: Options, request: RunRequest)
    requires Dashing(options) && request.targets == []
    ensures TargetsRead(options, TestTargets(request))
  {
    var parts := ["tests"] + Present(request.testModule) + Present(request.submodule);
    assert parts[0] == "tests" && "tests"[0] == 't';
    assert Join(parts, "/")[0] == 't';
  }

  // --- filter values that begin with a dash ----------------------------------------------------

  lemma ArgparseIsDashing(known: set<string>)
    ensures Dashing(Argparse(known))
  {
  }

  /** What passes for a negative number: digits behind the dash, perhaps with one point
      that is not at the end. */
  lemma {:induction false} NegativeIff(token: string)
    ensures NegativeNumber(token)
       <==> |token| > 1 && token[0] == '-' && IsDigit(token[|token| - 1])
            && (forall i :: 0 < i < |token| ==> IsDigit(token[i]) || token[i] == '.')
            && (forall i, j :: 0 < i < j < |token| ==> token[i] != '.' || token[j] != '.')
  {
    if |token| > 1 && token[0] == '-' {
      var text := token[1..];
      var n := Find(text, '.');
      assert forall i :: 0 < i < |token| ==> token[i] == text[i - 1];
      assert '.' in token <==> n < |text|;
      if n < |text| {
        var rest := text[n + 1..];
        assert token[n + 1] == '.';
        assert forall i :: 0 <= i < |rest| ==> rest[i] == token[n + 2 + i];
        assert forall i :: n + 1 < i < |token| ==> token[i] == rest[i - n - 2];
      }
      assert forall i :: 0 <= i < n ==> text[..n][i] == token[i + 1];
    }
  }

  /** An option with a value attached is one, whatever the value. */
  lemma AttachedIsOption(known: set<string>, name: string, letters: string, value: string)
    requires Dashed(name) && '=' !in name && name in known
    requires |letters| == 2 && letters[0] == '-' && letters[1] != '-' && letters in known
    ensures Argparse(known)(name + "=" + value) && Argparse(known)(letters + value)
  {
    PartitionAt(name, '=', value);
    assert (name + ['='] + value)[|name|] == '=';
    assert (letters + value)[..2] == letters;
  }

  /** A dashed text that no option starts is an option or a value by its looks. */
  lemma UnknownByLooks(known: set<string>, text: string)
    requires Dashed(text) && |text| > 1 && text !in known && text[..2] !in known && Partition(text, '=').0 !in known
    ensures Argparse(known)(text) <==> ' ' !in text && !NegativeNumber(text)
  {
  }

  lemma LooksLikeOption(known: set<string>)
    ensures Argparse(known)("-slow")
  {
    assert ' ' !in "-slow" && '.' !in "slow";
    PartitionNothing("slow", '.');
    assert !IsDigit("slow"[0]);
  }

  lemma LooksLikeNumber(known: set<string>)
    requires "-1" !in known
    ensures !Argparse(known)("-1")
  {
    assert "-1"[..2] == "-1" && "-1"[1..] == "1";
    PartitionNothing("1", '.');
  }

  lemma LooksLikeText(known: set<string>)
    requires "-x" !in known && "-x or y" !in known
    ensures !Argparse(known)("-x or y")
  {
    assert "-x or y"[..2] == "-x" && "-x or y"[2] == ' ';
  }

  lemma PartitionNothing(s: string, c: char)
    requires c !in s
    ensures Partition(s, c) == (s, "")
  {
  }

  /** A test name decides whether a resolved run of a module is accepted. */
  lemma {:induction false} NameDecides(options: Options, request: RunRequest, artifacts: RunArtifacts, port: int,
                                       name: string)
    requires Dashing(options) && Resolved(request) && request.targets == [] && request.markers == [] && name != ""
    ensures var named := request.(testName := Some(name));
            Receive(options, Arguments(named, artifacts), port)
            == if options(name) then Err(BadArgument) else Ok(Sent(named))
  {
    var named := request.(testName := Some(name));
    assert Resolved(named) && KeywordRead(options, named) == !options(name) && MarkersRead(options, named);
    ModuleIsTarget(options, named);
    hide Resolved, Dashing, TestTargets, TargetsRead, KeywordRead, MarkersRead, Tokenize, Arguments, Acceptable;
    ArgumentsReadBack(options, named, artifacts);
    AgreeIffResolved(options, named, artifacts, port);
  }

  /** A test name like `-slow` is always taken for an option, and one like `-1` or
      `-x or y` only if it, or its letter, is one. */
  lemma {:induction false} DashedNames(known: set<string>, request: RunRequest, artifacts: RunArtifacts, port: int)
    requires Resolved(request) && request.targets == [] && request.markers == []
    requires "-1" !in known && "-x" !in known && "-x or y" !in known
    ensures Receive(Argparse(known), Arguments(request.(testName := Some("-slow")), artifacts), port)
         == Err(BadArgument)
    ensures var negative := request.(testName := Some("-1"));
            Receive(Argparse(known), Arguments(negative, artifacts), port) == Ok(Sent(negative))
    ensures var spaced := request.(testName := Some("-x or y"));
            Receive(Argparse(known), Arguments(spaced, artifacts), port) == Ok(Sent(spaced))
  {
    ArgparseIsDashing(known);
    hide *;
    LooksLikeOption(known);
    LooksLikeNumber(known);
    LooksLikeText(known);
    NameDecides(Argparse(known), request, artifacts, port, "-slow");
    NameDecides(Argparse(known), request, artifacts, port, "-1");
    NameDecides(Argparse(known), request, artifacts, port, "-x or y");
  }
}
