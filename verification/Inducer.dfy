/** The traffic inducer: connect, round-trip, close, count the outcome, again. */
module Inducer {
  import opened Basics
  import opened Connection
  import Client = ProxyClient

  const BACKOFF_AFTER_FAILURES := 10
  const MAX_BACKOFF_S := 5.0

  /** `type(exc).__name__`. */
  function Name(failure: Failure): string {
    match failure
    case PeerClosedEarly => "PeerClosedEarly"
    case TimedOut => "TimeoutError"
    case SocketError => "OSError"
    case ProtocolViolation => "ProtocolViolation"
    case ConfigurationError => "ConfigurationError"
    case Unencodable => "UnicodeEncodeError"
    case PortOutOfRange => "OverflowError"
    case NotConnected => "RuntimeError"
    case Refused(_) => "ProxyTunnelError"
  }

  /** How one iteration ends, given how its dialling ends. */
  function Attempted(config: Client.Config, payload: Bytes, dial: Result<Net, Failure>): Option<Failure> {
    match dial
    case Err(failure) => Some(failure)
    case Ok(net) =>
      var (report, connected) := config.Handshake(net);
      match report
      case Err(failure) => Some(failure)
      case Ok(_) =>
        match Client.Roundtrip(connected, payload).0
        case Err(failure) => Some(failure)
        case Ok(_) => None
  }

  /** The outcomes of a run, in order. */
  function Outcomes(config: Client.Config, payload: Bytes, dials: seq<Result<Net, Failure>>): (os: seq<Option<Failure>>)
    ensures |os| == |dials|
  {
    seq(|dials|, i requires 0 <= i < |dials| => Attempted(config, payload, dials[i]))
  }

  /** How many of the outcomes were failures of this name. */
  function Failures(outcomes: seq<Option<Failure>>, name: string): nat {
    if outcomes == [] then 0
    else
      var last := outcomes[|outcomes| - 1];
      Failures(outcomes[..|outcomes| - 1], name) + if last.Some? && Name(last.value) == name then 1 else 0
  }

  function Successes(outcomes: seq<Option<Failure>>): nat {
    if outcomes == [] then 0
    else Successes(outcomes[..|outcomes| - 1]) + if outcomes[|outcomes| - 1].None? then 1 else 0
  }

  /** How many failures a run ends with. */
  function Streak(outcomes: seq<Option<Failure>>): nat {
    if outcomes == [] || outcomes[|outcomes| - 1].None? then 0 else 1 + Streak(outcomes[..|outcomes| - 1])
  }

  datatype Pause = Backoff(seconds: real) | Regular(seconds: real)

  function Min(a: real, b: real): real {
    if b < a then b else a
  }

  /** The waits of one iteration that ends a streak of failures: the interval, and
      before it a longer one once the failures in a row are many. */
  function PausesAfter(streak: nat, interval: real): seq<Pause> {
    Backoffs(streak, interval) + [Regular(interval)]
  }

  function Backoffs(streak: nat, interval: real): seq<Pause> {
    if streak >= BACKOFF_AFTER_FAILURES then [Backoff(Min(interval * streak as real, MAX_BACKOFF_S))] else []
  }

  function Pauses(outcomes: seq<Option<Failure>>, interval: real): seq<Pause> {
    if outcomes == [] then []
    else
      Pauses(outcomes[..|outcomes| - 1], interval) + PausesAfter(Streak(outcomes), interval)
  }

  /** The sum of all counters. */
  ghost function Total(counts: map<string, nat>): nat
    decreases |counts|
  {
    if counts == map[] then 0
    else
      var k :| k in counts;
      assert (counts - {k}).Keys == counts.Keys - {k};
      counts[k] + Total(counts - {k})
  }

  /** The sum does not depend on which counter is taken first. */
  lemma {:induction false} TotalSplits(counts: map<string, nat>, k: string)
    requires k in counts
    ensures Total(counts) == counts[k] + Total(counts - {k})
    decreases |counts|
  {
    var j :| j in counts && Total(counts) == counts[j] + Total(counts - {j});
    if j != k {
      assert (counts - {j}).Keys == counts.Keys - {j} && (counts - {k}).Keys == counts.Keys - {k};
      TotalSplits(counts - {j}, k);
      TotalSplits(counts - {k}, j);
      assert counts - {j} - {k} == counts - {k} - {j};
    }
  }

  /** Counting one more failure adds one to the sum. */
  lemma {:induction false} TotalCounts(counts: map<string, nat>, k: string)
    ensures Total(counts[k := Count(counts, k) + 1]) == Total(counts) + 1
  {
    var more := counts[k := Count(counts, k) + 1];
    TotalSplits(more, k);
    if k in counts {
      TotalSplits(counts, k);
      assert more - {k} == counts - {k};
    } else {
      assert more - {k} == counts;
    }
  }

  /** The counters have grown by exactly the failures of a run. */
  ghost predicate Counted(before: map<string, nat>, now: map<string, nat>, outcomes: seq<Option<Failure>>) {
    forall name :: Count(now, name) == Count(before, name) + Failures(outcomes, name)
  }

  /** One more outcome, if it is a failure. */
  function Recorded(counts: map<string, nat>, outcome: Option<Failure>): map<string, nat> {
    if outcome.None? then counts else counts[Name(outcome.value) := Count(counts, Name(outcome.value)) + 1]
  }

  lemma {:induction false} CountedStep(before: map<string, nat>, now: map<string, nat>, outcomes: seq<Option<Failure>>,
                                       outcome: Option<Failure>)
    requires Counted(before, now, outcomes)
    ensures Counted(before, Recorded(now, outcome), outcomes + [outcome])
  {
    assert (outcomes + [outcome])[..|outcomes|] == outcomes;
  }

  /** What one more outcome adds to the numbers of a run. */
  lemma {:induction false} RunStep(outcomes: seq<Option<Failure>>, outcome: Option<Failure>, interval: real)
    ensures var more := outcomes + [outcome];
            && Successes(more) == Successes(outcomes) + (if outcome.None? then 1 else 0)
            && Streak(more) == (if outcome.None? then 0 else Streak(outcomes) + 1)
            && Pauses(more, interval) == Pauses(outcomes, interval) + PausesAfter(Streak(more), interval)
  {
    assert (outcomes + [outcome])[..|outcomes|] == outcomes;
  }

  lemma OneMore(outcomes: seq<Option<Failure>>, i: nat)
    requires i < |outcomes|
    ensures outcomes[..i] + [outcomes[i]] == outcomes[..i + 1]
  {
  }

  lemma NoBackoffYet(interval: real)
    ensures Backoffs(0, interval) == []
  {
  }

  lemma NoFailure(counts: map<string, nat>)
    ensures Recorded(counts, None) == counts
  {
  }

  /** `get(name, 0)`. */
  function Count(counts: map<string, nat>, name: string): nat {
    if name in counts then counts[name] else 0
  }

  class TrafficInducer {
    const config: Client.Config
    const interval: real
    const payload: Bytes
    var attempts: nat
    var successes: nat
    var errorCounts: map<string, nat>
    var lastError: Option<Failure>
    ghost var inFlight: bool         // between the counting of an attempt and of its outcome
    ghost var sockets: set<Socket>   // every connection ever made
    ghost var most: nat              // the most connections ever open at once

    constructor (config: Client.Config, interval: real, payload: Bytes)
      ensures this.config == config && this.interval == interval && this.payload == payload
      ensures attempts == successes == 0 && errorCounts == map[] && lastError == None && !inFlight
      ensures sockets == {} && most == 0
    {
      this.config, this.interval, this.payload := config, interval, payload;
      attempts, successes, errorCounts, lastError, inFlight := 0, 0, map[], None, false;
      sockets, most := {}, 0;
    }

    /** What any reader that takes the lock finds. */
    ghost predicate Balanced()
      reads this`attempts, this`successes, this`errorCounts, this`inFlight
    {
      attempts == successes + Total(errorCounts) + if inFlight then 1 else 0
    }

    /** The first locked block of an iteration. */
    method CountAttempt()
      requires Balanced() && !inFlight
      modifies this`attempts, this`inFlight
      ensures Balanced() && inFlight && attempts == old(attempts) + 1
    {
      attempts := attempts + 1;
      inFlight := true;
    }

    method CountFailure(failure: Failure)
      requires Balanced() && inFlight
      modifies this`errorCounts, this`lastError, this`inFlight
      ensures Balanced() && !inFlight && lastError == Some(failure)
      ensures errorCounts == Recorded(old(errorCounts), Some(failure))
    {
      TotalCounts(errorCounts, Name(failure));
      lastError := Some(failure);
      errorCounts := errorCounts[Name(failure) := Count(errorCounts, Name(failure)) + 1];
      inFlight := false;
    }

    method CountSuccess()
      requires Balanced() && inFlight
      modifies this`successes, this`inFlight
      ensures Balanced() && !inFlight && successes == old(successes) + 1
    {
      successes := successes + 1;
      inFlight := false;
    }

    ghost predicate AllClosed()
      reads this`sockets, sockets`isOpen
    {
      forall s :: s in sockets ==> !s.isOpen
    }

    /** One connection: whatever happens on it, it is closed again afterwards. */
    method Induce(dial: Result<Net, Failure>) returns (failure: Option<Failure>)
      requires AllClosed() && most <= 1
      modifies this`sockets, this`most
      ensures failure == Attempted(config, payload, dial)
      ensures AllClosed() && most <= 1
    {
      hide Client.Config.Handshake, Client.Roundtrip, Client.ReportOf;
      var client := new Client.ProxyClient(config);
      failure := client.Connect(dial);
      sockets := sockets + client.made;
      assert forall s :: s in sockets && s.isOpen ==> s in client.OpenSockets();
      // Every older connection is closed, so this client's most is the inducer's.
      most := Client.Max(most, client.most);
      if failure.None? {
        var back := client.SendAndReceive(payload);
        failure := if back.Ok? then None else Some(back.error);
        client.Close();
      }
    }

    /** Between two iterations: the counters balance, and no connection is open. */
    ghost predicate Idle()
      reads this, sockets`isOpen
    {
      Balanced() && !inFlight && AllClosed() && most <= 1
    }

    method BackOff(streak: nat) returns (pauses: seq<Pause>)
      ensures pauses == Backoffs(streak, interval)
    {
      pauses := [];
      if streak >= BACKOFF_AFTER_FAILURES {
        pauses := pauses + [Backoff(Min(interval * streak as real, MAX_BACKOFF_S))];
      }
    }

    /** The body of the loop: the streak is the number of failures in a row. */
    method Iterate(dial: Result<Net, Failure>, streak: nat) returns (streak': nat, pauses: seq<Pause>)
      requires Idle()
      modifies this`attempts, this`successes, this`errorCounts, this`lastError, this`inFlight, this`sockets, this`most
      ensures Idle()
      ensures attempts == old(attempts) + 1 && pauses == PausesAfter(streak', interval)
      ensures var outcome := Attempted(config, payload, dial);
              && streak' == (if outcome.None? then 0 else streak + 1)
              && successes == old(successes) + (if outcome.None? then 1 else 0)
              && errorCounts == Recorded(old(errorCounts), outcome)
              && lastError == (if outcome.None? then old(lastError) else outcome)
    {
      NoFailure(errorCounts);
      NoBackoffYet(interval);
      hide Attempted, Recorded, Backoffs, TrafficInducer.AllClosed, TrafficInducer.Balanced;
      pauses := [];
      CountAttempt();
      var failure := Induce(dial);
      if failure.Some? {
        streak' := streak + 1;
        CountFailure(failure.value);
        pauses := BackOff(streak');
      } else {
        streak' := 0;
        CountSuccess();
      }
      pauses := pauses + [Regular(interval)];
    }

    /** The loop, for any sequence of dial outcomes: the stop request is seen after
        the last one. The waits are returned in order. */
    method Loop(dials: seq<Result<Net, Failure>>) returns (pauses: seq<Pause>)
      requires Idle()
      modifies this`attempts, this`successes, this`errorCounts, this`lastError, this`inFlight, this`sockets, this`most
      ensures Idle()
      ensures var outcomes := Outcomes(config, payload, dials);
              && attempts == old(attempts) + |dials|
              && successes == old(successes) + Successes(outcomes)
              && Counted(old(errorCounts), errorCounts, outcomes)
              && pauses == Pauses(outcomes, interval)
    {
      var consecutiveFailures: nat := 0;
      pauses := [];
      ghost var outcomes := Outcomes(config, payload, dials);
      assert Counted(errorCounts, errorCounts, []);
      assert outcomes[..0] == [] && outcomes[..|dials|] == outcomes;
      assert forall i :: 0 <= i < |dials| ==> outcomes[i] == Attempted(config, payload, dials[i]);
      hide Attempted, Successes, Failures, Streak, Pauses, PausesAfter, Counted, Recorded, Outcomes,
           TrafficInducer.Idle;
      for i := 0 to |dials|
        invariant Idle() && attempts == old(attempts) + i && successes == old(successes) + Successes(outcomes[..i])
        invariant Counted(old(errorCounts), errorCounts, outcomes[..i])
        invariant consecutiveFailures == Streak(outcomes[..i]) && pauses == Pauses(outcomes[..i], interval)
      {
        OneMore(outcomes, i);
        RunStep(outcomes[..i], outcomes[i], interval);
        CountedStep(old(errorCounts), errorCounts, outcomes[..i], outcomes[i]);
        var waited: seq<Pause>;
        consecutiveFailures, waited := Iterate(dials[i], consecutiveFailures);
        pauses := pauses + waited;
      }
    }
  }

  // --- what the loop's numbers mean --------------------------------------------------

  /** No back-off exceeds its ceiling, and every other wait is the interval. */
  lemma {:induction false} PausesAreBounded(outcomes: seq<Option<Failure>>, interval: real)
    ensures forall p :: p in Pauses(outcomes, interval) ==>
              if p.Backoff? then p.seconds <= 5.0 else p.seconds == interval
  {
    if outcomes != [] {
      PausesAreBounded(outcomes[..|outcomes| - 1], interval);
    }
  }

  /** A streak is exactly the failures after the last success. */
  lemma {:induction false} StreakIsTail(outcomes: seq<Option<Failure>>)
    ensures var n := |outcomes| - Streak(outcomes);
            && 0 <= n
            && (forall i :: n <= i < |outcomes| ==> outcomes[i].Some?)
            && (n > 0 ==> outcomes[n - 1].None?)
  {
    if outcomes != [] && outcomes[|outcomes| - 1].Some? {
      StreakIsTail(outcomes[..|outcomes| - 1]);
    }
  }

  /** While fewer than ten attempts in a row fail, nothing but the interval is waited. */
  lemma {:induction false} NoBackoffWhileTransient(outcomes: seq<Option<Failure>>, interval: real)
    requires forall n :: 0 <= n <= |outcomes| ==> Streak(outcomes[..n]) < 10
    ensures Pauses(outcomes, interval) == seq(|outcomes|, _ => Regular(interval))
  {
    if outcomes != [] {
      var rest := outcomes[..|outcomes| - 1];
      assert outcomes[..|outcomes|] == outcomes;
      assert forall n :: 0 <= n <= |rest| ==> rest[..n] == outcomes[..n];
      NoBackoffWhileTransient(rest, interval);
    }
  }

  /** Every iteration waits for the interval. One that fails at least the tenth time in a
      row waits before that, for the interval times the failures so far, but at most
      five seconds; no other one does. */
  lemma {:induction false} LastWaits(outcomes: seq<Option<Failure>>, interval: real) returns (seconds: real)
    requires outcomes != []
    ensures var before := Pauses(outcomes[..|outcomes| - 1], interval);
            var product := interval * Streak(outcomes) as real;
            && seconds <= product && seconds <= 5.0 && (seconds == product || seconds == 5.0)
            && Pauses(outcomes, interval)
               == before + (if Streak(outcomes) >= 10 then [Backoff(seconds)] else []) + [Regular(interval)]
  {
    var before := Pauses(outcomes[..|outcomes| - 1], interval);
    assert Pauses(outcomes, interval) == before + PausesAfter(Streak(outcomes), interval);
    hide Streak, Pauses, Backoffs;
    seconds := BackoffIs(Streak(outcomes), interval, interval * Streak(outcomes) as real);
    Assoc(before, Backoffs(Streak(outcomes), interval), [Regular(interval)]);
  }

  lemma BackoffIs(streak: nat, interval: real, product: real) returns (seconds: real)
    requires product == interval * streak as real
    ensures seconds <= product && seconds <= 5.0 && (seconds == product || seconds == 5.0)
    ensures Backoffs(streak, interval) == if streak >= 10 then [Backoff(seconds)] else []
  {
    seconds := Min(product, MAX_BACKOFF_S);
  }

  /** An attempt is a success exactly if the dialling and the handshake succeed, the
      payload can be sent, and as many bytes come back. Which bytes is not looked at. */
  lemma SucceedsIff(config: Client.Config, payload: Bytes, dial: Result<Net, Failure>)
    ensures Attempted(config, payload, dial) == None
       <==> dial.Ok? && config.Handshake(dial.value).0.Ok?
            && var tunnel := config.Handshake(dial.value).1;
               tunnel.accepts > 0 && |payload| <= |tunnel.inbound|
  {
    hide Client.Config.Handshake;
  }

  /** The tallies are numbers of outcomes. */
  lemma {:induction false} TalliesCount(outcomes: seq<Option<Failure>>, name: string)
    ensures Failures(outcomes, name)
         == |set i | 0 <= i < |outcomes| && outcomes[i].Some? && Name(outcomes[i].value) == name|
    ensures Successes(outcomes) == |set i | 0 <= i < |outcomes| && outcomes[i].None?|
  {
    hide Name;
    FailuresCount(outcomes, name);
    SuccessesCount(outcomes);
  }

  lemma {:induction false} FailuresCount(outcomes: seq<Option<Failure>>, name: string)
    ensures Failures(outcomes, name)
         == |set i | 0 <= i < |outcomes| && outcomes[i].Some? && Name(outcomes[i].value) == name|
  {
    hide Name;
    if outcomes != [] {
      var before, k := outcomes[..|outcomes| - 1], |outcomes| - 1;
      FailuresCount(before, name);
      var failed := set i | 0 <= i < |outcomes| && outcomes[i].Some? && Name(outcomes[i].value) == name;
      assert failed - {k} == set i | 0 <= i < |before| && before[i].Some? && Name(before[i].value) == name;
    }
  }

  lemma {:induction false} SuccessesCount(outcomes: seq<Option<Failure>>)
    ensures Successes(outcomes) == |set i | 0 <= i < |outcomes| && outcomes[i].None?|
  {
    if outcomes != [] {
      var before, k := outcomes[..|outcomes| - 1], |outcomes| - 1;
      SuccessesCount(before);
      var passed := set i | 0 <= i < |outcomes| && outcomes[i].None?;
      assert passed - {k} == set i | 0 <= i < |before| && before[i].None?;
    }
  }

  /** Failures of different kinds are counted apart. */
  lemma NamesDiffer(a: Failure, b: Failure)
    requires Name(a) == Name(b)
    ensures a == b || (a.Refused? && b.Refused?)
  {
  }
}
