/**
 The accumulating result of one run: the drains update it in place, from log
 files that another process is still writing.
 */
module RunResult {
  import opened Basics
  import opened Lines
  import opened Models
  import opened Verdicts
  import LogPipeline

  class TestEvent {
    const nodeid: string
    const markers: seq<string>
    var outcome: Outcome
    var duration: real
    var message: Option<string>

    constructor (v: Verdict)
      ensures Value() == v
    {
      nodeid, markers := v.nodeid, v.markers;
      outcome, duration, message := v.outcome, v.duration, v.message;
    }

    function Value(): Verdict
      reads this
    {
      Verdict(nodeid, outcome, duration, markers, message)
    }

    /** A strictly worse report of the same test takes over. */
    method Worsen(v: Verdict)
      requires v.nodeid == nodeid
      modifies this
      ensures Value() == Worsened(old(Value()), v)
    {
      outcome := v.outcome;
      message := if OwnMessage(v) then v.message else message;
      duration := duration + v.duration;
    }

    /** The same, interrupted before the last or the last two assignments. */
    method HalfWorsen(v: Verdict, withMessage: bool)
      requires v.nodeid == nodeid && Severity(v.outcome) > Severity(outcome)
      modifies this
      ensures Value() == HalfMerged(old(Value()), v, withMessage)
    {
      outcome := v.outcome;
      if withMessage {
        message := if OwnMessage(v) then v.message else message;
      }
    }
  }

  class TestRunResult {
    var tests: seq<TestEvent>
    var packetEvents: seq<PacketEvent>

    constructor ()
      ensures Valid() && View() == [] && packetEvents == []
    {
      tests, packetEvents := [], [];
    }

    ghost predicate Valid()
      reads this`tests
    {
      forall i, j :: 0 <= i < j < |tests| ==> tests[i].nodeid != tests[j].nodeid
    }

    /** The entries as values. */
    function View(): (view: seq<Verdict>)
      reads this`tests, tests
      ensures |view| == |tests| && forall i :: 0 <= i < |tests| ==> view[i] == tests[i].Value()
    {
      var entries := tests;
      seq(|entries|, i requires 0 <= i < |entries| reads entries => entries[i].Value())
    }

    lemma OneEntryPerTest()
      requires Valid()
      ensures OnePerTest(View())
    {
    }

    /** The index the drain builds and keeps: nodeid to entry. */
    ghost predicate Indexed(index: map<string, TestEvent>)
      reads this`tests
    {
      && (forall i :: 0 <= i < |tests| ==> tests[i].nodeid in index && index[tests[i].nodeid] == tests[i])
      && (forall n :: n in index ==> index[n].nodeid == n && index[n] in tests)
    }

    method BuildIndex() returns (index: map<string, TestEvent>)
      requires Valid()
      ensures Indexed(index)
    {
      index := map[];
      for i := 0 to |tests|
        invariant forall k :: 0 <= k < i ==> tests[k].nodeid in index && index[tests[k].nodeid] == tests[k]
        invariant forall n :: n in index ==> index[n].nodeid == n && index[n] in tests
      {
        index := index[tests[i].nodeid := tests[i]];
      }
    }

    /** One verdict: a new entry, a worsened one, or nothing. */
    method Record(v: Verdict, index: map<string, TestEvent>) returns (updated: map<string, TestEvent>)
      requires Valid() && Indexed(index)
      modifies this`tests, tests
      ensures Valid() && Indexed(updated)
      ensures View() == Upsert(old(View()), v)
      ensures forall k :: 0 <= k < |tests| ==> tests[k] in old(tests) || fresh(tests[k])
    {
      if v.nodeid !in index {
        updated := Append(v, index);
      } else {
        updated := index;
        MergeInto(v, index[v.nodeid]);
      }
    }

    method Append(v: Verdict, index: map<string, TestEvent>) returns (updated: map<string, TestEvent>)
      requires Valid() && Indexed(index) && v.nodeid !in index
      modifies this`tests
      ensures Valid() && Indexed(updated)
      ensures View() == Upsert(old(View()), v)
      ensures forall k :: 0 <= k < |tests| ==> tests[k] in old(tests) || fresh(tests[k])
    {
      ghost var was := View();
      assert PositionOf(was, v.nodeid).None? by {
        assert forall i :: 0 <= i < |tests| ==> was[i].nodeid == tests[i].nodeid;
      }
      assert Upsert(was, v) == was + [v];
      hide Upsert, PositionOf;
      var event := new TestEvent(v);
      tests := tests + [event];
      updated := index[v.nodeid := event];
      assert View() == was + [v];
    }

    method MergeInto(v: Verdict, existing: TestEvent)
      requires Valid() && existing in tests && existing.nodeid == v.nodeid
      modifies existing
      ensures View() == Upsert(old(View()), v)
    {
      ghost var was := View();
      ghost var at := PlaceOf(existing);
      if Severity(v.outcome) > Severity(existing.outcome) {
        existing.Worsen(v);
      }
      assert View() == was[at := Merge(was[at], v)];
    }

    /** `drain_test_events`. */
    method DrainTestEvents(json: Json, file: Option<Bytes>, offset: nat) returns (newOffset: nat)
      requires Valid()
      modifies this`tests, tests
      ensures Valid()
      ensures newOffset == ReadNewLines(file, offset).1
      ensures View() == Fold(old(View()), VerdictsIn(json, ReadNewLines(file, offset).0))
      ensures forall k :: 0 <= k < |tests| ==> tests[k] in old(tests) || fresh(tests[k])
    {
      var (lines, next) := ReadNewLines(file, offset);
      newOffset := next;
      if lines != [] {
        TakeLines(json, lines);
      }
    }

    method TakeLines(json: Json, lines: seq<Text>)
      requires Valid()
      modifies this`tests, tests
      ensures Valid()
      ensures View() == Fold(old(View()), VerdictsIn(json, lines))
      ensures forall k :: 0 <= k < |tests| ==> tests[k] in old(tests) || fresh(tests[k])
    {
      ghost var was := View();
      assert Fold(was, VerdictsIn(json, lines[..0])) == was;
      hide TakeLine, VerdictsIn, Fold, TestRunResult.Valid;
      var index := BuildIndex();
      for i := 0 to |lines|
        invariant Valid() && Indexed(index)
        invariant View() == Fold(was, VerdictsIn(json, lines[..i]))
        invariant forall k :: 0 <= k < |tests| ==> tests[k] in old(tests) || fresh(tests[k])
      {
        FoldNextLine(json, was, lines, i);
        index := RecordLine(json, lines[i], index);
      }
      assert lines[..|lines|] == lines;
    }

    method RecordLine(json: Json, line: Text, index: map<string, TestEvent>) returns (updated: map<string, TestEvent>)
      requires Valid() && Indexed(index)
      modifies this`tests, tests
      ensures Valid() && Indexed(updated)
      ensures View() == TakeLine(json, old(View()), line)
      ensures forall k :: 0 <= k < |tests| ==> tests[k] in old(tests) || fresh(tests[k])
    {
      updated := index;
      var event := ParseReportLogLine(json, line);
      if event.Some? {
        updated := Record(event.value, index);
      }
    }

    /** The line in which an interrupt cuts a worsening short; of any other line nothing
        is taken. */
    method TearLine(json: Json, line: Text, withMessage: bool)
      requires Valid()
      modifies tests
      ensures Valid()
      ensures View() == HalfTaken(old(View()), ParseReportLogLine(json, line), withMessage)
    {
      var index := BuildIndex();
      var event := ParseReportLogLine(json, line);
      NothingFound(View(), withMessage);
      hide HalfTaken, ParseReportLogLine, TestRunResult.Valid;
      if event.Some? && event.value.nodeid in index {
        TearEntry(event.value, index[event.value.nodeid], withMessage);
      } else if event.Some? {
        NotMentioned(index, event.value, withMessage);
      }
    }

    lemma NotMentioned(index: map<string, TestEvent>, v: Verdict, withMessage: bool)
      requires Indexed(index) && v.nodeid !in index
      ensures HalfTaken(View(), Some(v), withMessage) == View()
    {
      assert forall i :: 0 <= i < |tests| ==> View()[i].nodeid == tests[i].nodeid;
    }

    lemma NothingFound(view: seq<Verdict>, withMessage: bool)
      ensures HalfTaken(view, None, withMessage) == view
    {
    }

    method TearEntry(v: Verdict, existing: TestEvent, withMessage: bool)
      requires Valid() && existing in tests && existing.nodeid == v.nodeid
      modifies existing
      ensures View() == HalfTaken(old(View()), Some(v), withMessage)
    {
      ghost var was := View();
      ghost var at := PlaceOf(existing);
      if Severity(v.outcome) > Severity(existing.outcome) {
        existing.HalfWorsen(v, withMessage);
      }
      assert View() == was[at := HalfMerged(was[at], v, withMessage)];
    }

    lemma PlaceOf(existing: TestEvent) returns (at: nat)
      requires Valid() && existing in tests
      ensures at < |tests| && tests[at] == existing && PositionOf(View(), existing.nodeid) == Some(at)
      ensures forall i :: 0 <= i < |tests| && i != at ==> tests[i] != existing
    {
      var view := View();
      at :| 0 <= at < |tests| && tests[at] == existing;
      assert view[at].nodeid == existing.nodeid;
      assert forall i :: 0 <= i < |tests| ==> view[i].nodeid == tests[i].nodeid;
    }

    /** `drain_packet_events`. */
    method DrainPacketEvents(codec: LogPipeline.Codec, file: Option<Bytes>, offset: nat) returns (newOffset: nat)
      modifies this`packetEvents
      ensures newOffset == ReadNewLines(file, offset).1
      ensures packetEvents == old(packetEvents) + LogPipeline.Parse(codec, ReadNewLines(file, offset).0)
    {
      hide ReadNewLines;
      var (lines, next) := ReadNewLines(file, offset);
      TakeEvents(codec, lines);
      newOffset := next;
    }

    method TakeEvents(codec: LogPipeline.Codec, lines: seq<Text>)
      modifies this`packetEvents
      ensures packetEvents == old(packetEvents) + LogPipeline.Parse(codec, lines)
    {
      ghost var was := packetEvents;
      for i := 0 to |lines|
        invariant packetEvents + LogPipeline.Parse(codec, lines[i..]) == was + LogPipeline.Parse(codec, lines)
      {
        assert lines[i..][1..] == lines[i + 1..];
        var event := codec.decode(lines[i]);
        if event.Some? {
          packetEvents := packetEvents + [event.value];
        }
      }
    }
  }

  /** Both log files at one moment. */
  datatype Observation = Observation(report: Option<Bytes>, events: Option<Bytes>)

  ghost predicate GrewTo(a: Observation, b: Observation) {
    Grew(a.report, b.report) && Grew(a.events, b.events)
  }

  /** What is in results.json. */
  datatype Saved =
    Saved(tests: seq<Verdict>, packetEvents: seq<PacketEvent>, returncode: int)

  /** The entries are the one-pass fold of the report log up to `offset`. */
  ghost predicate ReportsTaken(json: Json, file: Option<Bytes>, offset: nat, view: seq<Verdict>) {
    && offset <= |Content(file)| && WholeLines(Content(file)[..offset])
    && view == Fold([], VerdictsIn(json, LinesOf(Content(file)[..offset])))
  }

  /** The packets are the one-pass parse of the event log up to `offset`. */
  ghost predicate EventsTaken(codec: LogPipeline.Codec, file: Option<Bytes>, offset: nat,
                              packets: seq<PacketEvent>) {
    && offset <= |Content(file)| && WholeLines(Content(file)[..offset])
    && packets == LogPipeline.Parse(codec, LinesOf(Content(file)[..offset]))
  }

  lemma ReportPoll(json: Json, file: Option<Bytes>, offset: nat, view: seq<Verdict>)
    requires ReportsTaken(json, file, offset, view)
    ensures var (lines, next) := ReadNewLines(file, offset);
            next == CompleteLength(Content(file))
            && ReportsTaken(json, file, next, Fold(view, VerdictsIn(json, lines)))
  {
    var seen := LinesOf(Content(file)[..offset]);
    PollCatchesUp(file, offset, seen);
    var (lines, next) := ReadNewLines(file, offset);
    VerdictsDistribute(json, seen, lines);
    FoldInTwoGoes([], VerdictsIn(json, seen), VerdictsIn(json, lines));
  }

  lemma EventPoll(codec: LogPipeline.Codec, file: Option<Bytes>, offset: nat, packets: seq<PacketEvent>)
    requires EventsTaken(codec, file, offset, packets)
    ensures var (lines, next) := ReadNewLines(file, offset);
            next == CompleteLength(Content(file))
            && EventsTaken(codec, file, next, packets + LogPipeline.Parse(codec, lines))
  {
    var seen := LinesOf(Content(file)[..offset]);
    PollCatchesUp(file, offset, seen);
    LogPipeline.ParseDistributes(codec, seen, ReadNewLines(file, offset).0);
  }

  /** The one-pass fold of all complete lines of the report log. */
  function BatchTests(json: Json, report: Option<Bytes>): seq<Verdict> {
    Fold([], VerdictsIn(json, LinesOf(Complete(Content(report)))))
  }

  /** The one-pass parse of all complete lines of the event log. */
  function BatchEvents(codec: LogPipeline.Codec, events: Option<Bytes>): seq<PacketEvent> {
    LogPipeline.Parse(codec, LinesOf(Complete(Content(events))))
  }

  /** A reader whose offsets and results are those of one-pass reading. */
  ghost predicate InStep(json: Json, codec: LogPipeline.Codec, at: Observation, reportOffset: nat, eventsOffset: nat,
                         view: seq<Verdict>, packets: seq<PacketEvent>) {
    && ReportsTaken(json, at.report, reportOffset, view) && EventsTaken(codec, at.events, eventsOffset, packets)
    && reportOffset == CompleteLength(Content(at.report)) && eventsOffset == CompleteLength(Content(at.events))
  }

  lemma InStepAtStart(json: Json, codec: LogPipeline.Codec)
    ensures InStep(json, codec, Observation(None, None), 0, 0, [], [])
  {
    assert LinesOf([]) == [];
  }

  /** Where an interrupt finds the run: at the yield of a poll (or in the sleep behind
      it), or in one of the two drains of a poll, after so many lines of it, perhaps
      inside the worsening that the next line brings. */
  datatype Interrupt =
    | AtYield
    | InReports(lines: nat)
    | InWorsening(lines: nat, withMessage: bool)
    | InEvents(lines: nat)

  predicate CutShort(interrupt: Option<Interrupt>) {
    interrupt.Some? && !interrupt.value.AtYield?
  }

  /** The packets of one pass, but those that a drain cut short had taken are there
      twice, since the drain is started over. */
  function Doubled(codec: LogPipeline.Codec, before: Option<Bytes>, now: Option<Bytes>, final: Option<Bytes>,
                   interrupt: Interrupt): seq<PacketEvent>
  {
    var taken, batch := BatchEvents(codec, before), BatchEvents(codec, final);
    var fresher := Front(ReadNewLines(now, CompleteLength(Content(before))).0, LinesTaken(interrupt));
    taken + (if interrupt.InEvents? then LogPipeline.Parse(codec, fresher) else [])
    + if |taken| <= |batch| then batch[|taken|..] else []
  }

  /** The tests of one pass, but an entry whose worsening was cut short has got no time
      from it, and no message unless that was assigned before. */
  function Torn(json: Json, before: Option<Bytes>, now: Option<Bytes>, final: Option<Bytes>,
                interrupt: Interrupt): seq<Verdict>
  {
    var offset := CompleteLength(Content(before));
    var fresher := ReadNewLines(now, offset).0;
    if interrupt.InWorsening? && interrupt.lines < |fresher| then
      var once := Fold(BatchTests(json, before), VerdictsIn(json, fresher[..interrupt.lines]));
      Fold(HalfTaken(once, ParseReportLogLine(json, fresher[interrupt.lines]), interrupt.withMessage),
           VerdictsIn(json, ReadNewLines(final, offset).0))
    else BatchTests(json, final)
  }

  function LinesTaken(interrupt: Interrupt): nat {
    if interrupt.AtYield? then 0 else interrupt.lines
  }

  /** `stream_run` over the observations its polls make. An interrupt arrives in the
      last poll; `final` is what the drain in the `finally` block finds. Whatever the
      poll schedule and however the run ends, each yield showed the one-pass fold of the
      complete lines of its poll, and what is saved is the one-pass fold of all complete
      lines, but for an entry or a drain of packets that was cut short. */
  method StreamRun(json: Json, codec: LogPipeline.Codec, polls: seq<Observation>, final: Observation,
                   interrupt: Option<Interrupt>, returncode: int)
    returns (saved: Saved, shown: seq<seq<Verdict>>)
    requires forall i :: 0 <= i < |polls| - 1 ==> GrewTo(polls[i], polls[i + 1])
    requires polls != [] ==> GrewTo(polls[|polls| - 1], final)
    requires interrupt.Some? ==> polls != []
    ensures saved.tests
         == if CutShort(interrupt) then
              Torn(json, LastSeen(polls, |polls| - 1).report, polls[|polls| - 1].report, final.report,
                   interrupt.value)
            else BatchTests(json, final.report)
    ensures saved.packetEvents
         == if CutShort(interrupt) then
              Doubled(codec, LastSeen(polls, |polls| - 1).events, polls[|polls| - 1].events, final.events,
                      interrupt.value)
            else BatchEvents(codec, final.events)
    ensures CutShort(interrupt) ==>
              BatchEvents(codec, LastSeen(polls, |polls| - 1).events) <= BatchEvents(codec, final.events)
    ensures saved.returncode == returncode
    ensures |shown| == |polls| + (if interrupt.None? then 1 else if CutShort(interrupt) then -1 else 0)
    ensures forall i :: 0 <= i < |polls| && i < |shown| ==> shown[i] == BatchTests(json, polls[i].report)
    ensures interrupt.None? ==> shown[|polls|] == saved.tests
  {
    var whole := if CutShort(interrupt) then |polls| - 1 else |polls|;
    assert GrewTo(LastSeen(polls, whole), if CutShort(interrupt) then polls[whole] else final);
    hide InStep, BatchTests, BatchEvents, Doubled, Torn, GrewTo, TestRunResult.Valid;
    var result, reportOffset, eventsOffset;
    result, reportOffset, eventsOffset, shown := PollWhileRunning(json, codec, polls[..whole]);
    ghost var seen := LastSeen(polls, whole);
    assert seen == LastSeen(polls[..whole], whole);
    if CutShort(interrupt) {
      saved := FinishCut(json, codec, result, seen, polls[whole], final, reportOffset, eventsOffset, interrupt.value,
                         returncode);
    } else {
      reportOffset, eventsOffset := DrainBoth(json, codec, result, seen, final, reportOffset, eventsOffset);
      saved := Saved(result.View(), result.packetEvents, returncode);
    }
    if interrupt.None? {
      shown := shown + [saved.tests];
    }
  }

  /** The poll that an interrupt cuts short, and the drains of the `finally` block: the
      drain that was cut short has not moved its offset, so it is started over. */
  method FinishCut(json: Json, codec: LogPipeline.Codec, result: TestRunResult, ghost before: Observation,
                   now: Observation, final: Observation, reportOffset: nat, eventsOffset: nat, interrupt: Interrupt,
                   returncode: int)
    returns (saved: Saved)
    requires result.Valid() && GrewTo(before, now) && GrewTo(now, final) && !interrupt.AtYield?
    requires InStep(json, codec, before, reportOffset, eventsOffset, result.View(), result.packetEvents)
    modifies result, result.tests
    ensures saved.tests == Torn(json, before.report, now.report, final.report, interrupt)
    ensures saved.returncode == returncode
    ensures saved.packetEvents == Doubled(codec, before.events, now.events, final.events, interrupt)
    ensures BatchEvents(codec, before.events) <= BatchEvents(codec, final.events)
  {
    assert BatchEvents(codec, before.events) <= BatchEvents(codec, final.events) by {
      CutEvents(json, codec, before, now, final, reportOffset, eventsOffset, result.View(), result.packetEvents,
                interrupt);
    }
    var next := CutPoll(json, codec, result, before, now, final, reportOffset, eventsOffset, interrupt);
    hide *;
    var _ := result.DrainTestEvents(json, final.report, next);
    var _ := result.DrainPacketEvents(codec, final.events, eventsOffset);
    saved := Saved(result.View(), result.packetEvents, returncode);
  }

  /** What the cut-short poll leaves, stated by what the final drains make of it. */
  method CutPoll(json: Json, codec: LogPipeline.Codec, result: TestRunResult, ghost before: Observation,
                 now: Observation, ghost final: Observation, reportOffset: nat, eventsOffset: nat, interrupt: Interrupt)
    returns (next: nat)
    requires result.Valid() && GrewTo(before, now) && GrewTo(now, final) && !interrupt.AtYield?
    requires InStep(json, codec, before, reportOffset, eventsOffset, result.View(), result.packetEvents)
    modifies result, result.tests
    ensures result.Valid()
    ensures forall k :: 0 <= k < |result.tests| ==> result.tests[k] in old(result.tests) || fresh(result.tests[k])
    ensures Fold(result.View(), VerdictsIn(json, ReadNewLines(final.report, next).0))
         == Torn(json, before.report, now.report, final.report, interrupt)
    ensures result.packetEvents + LogPipeline.Parse(codec, ReadNewLines(final.events, eventsOffset).0)
         == Doubled(codec, before.events, now.events, final.events, interrupt)
  {
    hide *;
    CutEvents(json, codec, before, now, final, reportOffset, eventsOffset, result.View(), result.packetEvents,
              interrupt);
    next := reportOffset;
    match interrupt {
      case InReports(n) =>
        result.OneEntryPerTest();
        CutReports(json, codec, before, now, final, reportOffset, eventsOffset, result.View(), result.packetEvents, n);
        AndNothing(result.packetEvents);
        TornPastTheEnd(json, before.report, now.report, final.report, interrupt);
        result.TakeLines(json, Front(ReadNewLines(now.report, reportOffset).0, n));
      case InWorsening(n, withMessage) =>
        result.OneEntryPerTest();
        AndNothing(result.packetEvents);
        next := CutInEntry(json, codec, result, before, now, final, reportOffset, eventsOffset, interrupt);
      case InEvents(n) =>
        WholeReports(json, codec, before, now, final, reportOffset, eventsOffset, result.View(), result.packetEvents);
        TornPastTheEnd(json, before.report, now.report, final.report, interrupt);
        next := result.DrainTestEvents(json, now.report, reportOffset);
        result.TakeEvents(codec, Front(ReadNewLines(now.events, eventsOffset).0, n));
    }
  }

  /** The lines before the one that worsens an entry, and that one in part. */
  method CutInEntry(json: Json, codec: LogPipeline.Codec, result: TestRunResult, ghost before: Observation,
                    now: Observation, ghost final: Observation, reportOffset: nat, ghost eventsOffset: nat,
                    interrupt: Interrupt)
    returns (next: nat)
    requires result.Valid() && GrewTo(before, now) && GrewTo(now, final) && interrupt.InWorsening?
    requires InStep(json, codec, before, reportOffset, eventsOffset, result.View(), result.packetEvents)
    modifies result`tests, result.tests
    ensures result.Valid()
    ensures forall k :: 0 <= k < |result.tests| ==> result.tests[k] in old(result.tests) || fresh(result.tests[k])
    ensures Fold(result.View(), VerdictsIn(json, ReadNewLines(final.report, next).0))
         == Torn(json, before.report, now.report, final.report, interrupt)
  {
    hide *;
    var lines := ReadNewLines(now.report, reportOffset).0;
    var n := interrupt.lines;
    next := reportOffset;
    AtOffset(json, codec, before, reportOffset, eventsOffset, result.View(), result.packetEvents);
    if n < |lines| {
      TornInEntry(json, before.report, now.report, final.report, interrupt);
      result.TakeLines(json, lines[..n]);
      result.TearLine(json, lines[n], interrupt.withMessage);
    } else {
      result.OneEntryPerTest();
      TornPastTheEnd(json, before.report, now.report, final.report, interrupt);
      CutReports(json, codec, before, now, final, reportOffset, eventsOffset, result.View(), result.packetEvents, n);
      AllInFront(lines, n);
      result.TakeLines(json, lines);
    }
  }

  lemma AllInFront(lines: seq<Text>, n: nat)
    requires |lines| <= n
    ensures Front(lines, n) == lines
  {
  }

  lemma AtOffset(json: Json, codec: LogPipeline.Codec, at: Observation, reportOffset: nat, eventsOffset: nat,
                 view: seq<Verdict>, packets: seq<PacketEvent>)
    requires InStep(json, codec, at, reportOffset, eventsOffset, view, packets)
    ensures reportOffset == CompleteLength(Content(at.report)) && view == BatchTests(json, at.report)
  {
  }

  lemma TornInEntry(json: Json, before: Option<Bytes>, now: Option<Bytes>, final: Option<Bytes>, interrupt: Interrupt)
    requires interrupt.InWorsening? && interrupt.lines < |ReadNewLines(now, CompleteLength(Content(before))).0|
    ensures var offset, n := CompleteLength(Content(before)), interrupt.lines;
            var fresher := ReadNewLines(now, offset).0;
            Torn(json, before, now, final, interrupt)
            == Fold(HalfTaken(Fold(BatchTests(json, before), VerdictsIn(json, fresher[..n])),
                              ParseReportLogLine(json, fresher[n]), interrupt.withMessage),
                    VerdictsIn(json, ReadNewLines(final, offset).0))
  {
  }

  lemma TornPastTheEnd(json: Json, before: Option<Bytes>, now: Option<Bytes>, final: Option<Bytes>,
                       interrupt: Interrupt)
    requires interrupt.InWorsening? ==>
               |ReadNewLines(now, CompleteLength(Content(before))).0| <= interrupt.lines
    ensures Torn(json, before, now, final, interrupt) == BatchTests(json, final)
  {
  }

  /** The saved tests and their outcomes are always those of one pass; times and
      messages are too exactly when the worsening that was cut short, if one was, had
      none to lose. */
  lemma {:induction false} TornIff(json: Json, before: Option<Bytes>, now: Option<Bytes>, final: Option<Bytes>,
                                   interrupt: Interrupt)
    requires Grew(before, now) && Grew(now, final)
    ensures var saved, batch := Torn(json, before, now, final, interrupt), BatchTests(json, final);
            && |saved| == |batch| && (forall j :: 0 <= j < |saved| ==> SameVerdict(saved[j], batch[j]))
            && (saved == batch <==> KeepsAll(json, before, now, final, interrupt))
  {
    hide *;
    var lines := ReadNewLines(now, CompleteLength(Content(before))).0;
    if interrupt.InWorsening? && interrupt.lines < |lines| {
      TornInEntryIff(json, before, now, final, interrupt);
    } else {
      TornPastTheEnd(json, before, now, final, interrupt);
      KeepsAllPastTheEnd(json, before, now, final, interrupt);
      AllTheSame(BatchTests(json, final));
    }
  }

  lemma {:induction false} TornInEntryIff(json: Json, before: Option<Bytes>, now: Option<Bytes>, final: Option<Bytes>,
                                          interrupt: Interrupt)
    requires Grew(before, now) && Grew(now, final) && interrupt.InWorsening?
    requires interrupt.lines < |ReadNewLines(now, CompleteLength(Content(before))).0|
    ensures var saved, batch := Torn(json, before, now, final, interrupt), BatchTests(json, final);
            && |saved| == |batch| && (forall j :: 0 <= j < |saved| ==> SameVerdict(saved[j], batch[j]))
            && (saved == batch <==> KeepsAll(json, before, now, final, interrupt))
  {
    hide *;
    var offset, n := CompleteLength(Content(before)), interrupt.lines;
    BeforeNow(before, now);
    var fresher, all := ReadNewLines(now, offset).0, ReadNewLines(final, offset).0;
    var more := NewLinesGrow(now, final, offset);
    var torn, seen := ParseReportLogLine(json, fresher[n]), BatchTests(json, before);
    KeepsAllInEntry(json, before, now, final, interrupt);
    GrewTwice(before, now, final);
    TornInEntry(json, before, now, final, interrupt);
    BatchGrows(json, before, final);
    BatchIsTable(json, before);
    AroundLine(json, all, fresher, more, n);
    HalfTakenIff(seen, VerdictsIn(json, fresher[..n]), torn, VerdictsIn(json, all[n + 1..]), interrupt.withMessage);
  }

  lemma BeforeNow(before: Option<Bytes>, now: Option<Bytes>)
    requires Grew(before, now)
    ensures CompleteLength(Content(before)) <= |Content(now)|
  {
  }

  lemma GrewTwice(before: Option<Bytes>, now: Option<Bytes>, final: Option<Bytes>)
    requires Grew(before, now) && Grew(now, final)
    ensures Grew(before, final)
  {
  }

  lemma KeepsAllInEntry(json: Json, before: Option<Bytes>, now: Option<Bytes>, final: Option<Bytes>,
                        interrupt: Interrupt)
    requires interrupt.InWorsening?
    requires var offset := CompleteLength(Content(before));
             interrupt.lines < |ReadNewLines(now, offset).0| && interrupt.lines < |ReadNewLines(final, offset).0|
    ensures var offset, n := CompleteLength(Content(before)), interrupt.lines;
            var fresher, all := ReadNewLines(now, offset).0, ReadNewLines(final, offset).0;
            var torn := ParseReportLogLine(json, fresher[n]);
            KeepsAll(json, before, now, final, interrupt)
            <==> (torn.Some? ==>
                    NothingLost(Fold(BatchTests(json, before), VerdictsIn(json, fresher[..n])), torn.value,
                                interrupt.withMessage, VerdictsIn(json, all[n + 1..])))
  {
    hide ReadNewLines, CompleteLength, Content, NothingLost, BatchTests, Fold, VerdictsIn, ParseReportLogLine;
  }

  /** One pass over a file that has grown is one pass before and the new lines. */
  lemma BatchGrows(json: Json, before: Option<Bytes>, final: Option<Bytes>)
    requires Grew(before, final)
    ensures BatchTests(json, final)
         == Fold(BatchTests(json, before), VerdictsIn(json, ReadNewLines(final, CompleteLength(Content(before))).0))
  {
    var offset := CompleteLength(Content(before));
    assert Content(final)[..offset] == Content(before)[..offset];
    hide Fold, VerdictsIn, ReadNewLines, CompleteLength, LinesOf;
    ReportPoll(json, final, offset, BatchTests(json, before));
  }

  lemma BatchIsTable(json: Json, report: Option<Bytes>)
    ensures OnePerTest(BatchTests(json, report))
  {
    hide VerdictsIn, LinesOf, Complete, OnePerTest;
    FoldTabulates(VerdictsIn(json, LinesOf(Complete(Content(report)))));
  }

  lemma AroundLine(json: Json, all: seq<Text>, lines: seq<Text>, more: seq<Text>, n: nat)
    requires all == lines + more && n < |lines|
    ensures VerdictsIn(json, all)
         == VerdictsIn(json, lines[..n]) + Found(ParseReportLogLine(json, lines[n])) + VerdictsIn(json, all[n + 1..])
  {
    OneVerdict(json, lines[n]);
    hide VerdictsIn;
    assert all == lines[..n] + [lines[n]] + all[n + 1..];
    VerdictsDistribute(json, lines[..n] + [lines[n]], all[n + 1..]);
    VerdictsDistribute(json, lines[..n], [lines[n]]);
  }

  lemma OneVerdict(json: Json, line: Text)
    ensures VerdictsIn(json, [line]) == Found(ParseReportLogLine(json, line))
  {
    assert [line][..0] == [];
  }

  /** No worsening is cut short, or one that has nothing to lose. */
  predicate KeepsAll(json: Json, before: Option<Bytes>, now: Option<Bytes>, final: Option<Bytes>,
                     interrupt: Interrupt)
  {
    var offset := CompleteLength(Content(before));
    var fresher, all := ReadNewLines(now, offset).0, ReadNewLines(final, offset).0;
    interrupt.InWorsening? && interrupt.lines < |fresher| && interrupt.lines < |all| ==>
      var n := interrupt.lines;
      var torn := ParseReportLogLine(json, fresher[n]);
      torn.Some? ==>
        NothingLost(Fold(BatchTests(json, before), VerdictsIn(json, fresher[..n])), torn.value,
                    interrupt.withMessage, VerdictsIn(json, all[n + 1..]))
  }

  lemma KeepsAllPastTheEnd(json: Json, before: Option<Bytes>, now: Option<Bytes>, final: Option<Bytes>,
                           interrupt: Interrupt)
    requires interrupt.InWorsening? ==>
               |ReadNewLines(now, CompleteLength(Content(before))).0| <= interrupt.lines
    ensures KeepsAll(json, before, now, final, interrupt)
  {
  }

  lemma AndNothing(packets: seq<PacketEvent>)
    ensures packets + [] == packets
  {
  }

  /** A test drain cut short and started over. */
  lemma {:induction false} CutReports(json: Json, codec: LogPipeline.Codec, before: Observation, now: Observation,
                                      final: Observation, reportOffset: nat, eventsOffset: nat,
                                      view: seq<Verdict>, packets: seq<PacketEvent>, n: nat)
    requires GrewTo(before, now) && GrewTo(now, final) && OnePerTest(view)
    requires InStep(json, codec, before, reportOffset, eventsOffset, view, packets)
    ensures var part := Front(ReadNewLines(now.report, reportOffset).0, n);
            Fold(Fold(view, VerdictsIn(json, part)), VerdictsIn(json, ReadNewLines(final.report, reportOffset).0))
            == BatchTests(json, final.report)
  {
    PollBoth(json, codec, before, final, reportOffset, eventsOffset, view, packets);
    assert reportOffset <= |Content(before.report)| <= |Content(now.report)|;
    hide *;
    var part := Front(ReadNewLines(now.report, reportOffset).0, n);
    var rest := PartOfNewLines(now.report, final.report, reportOffset, n);
    VerdictsDistribute(json, part, rest);
    StartingOverChangesNothing(view, VerdictsIn(json, part), VerdictsIn(json, rest));
  }

  lemma PartOfNewLines(now: Option<Bytes>, final: Option<Bytes>, offset: nat, n: nat) returns (rest: seq<Text>)
    requires Grew(now, final) && offset <= |Content(now)|
    ensures ReadNewLines(final, offset).0 == Front(ReadNewLines(now, offset).0, n) + rest
  {
    hide ReadNewLines;
    var lines := ReadNewLines(now, offset).0;
    var more := NewLinesGrow(now, final, offset);
    var part := Front(lines, n);
    rest := lines[|part|..] + more;
    assert part + rest == lines + more;
  }

  /** A test drain that came through, and the final one after it. */
  lemma {:induction false} WholeReports(json: Json, codec: LogPipeline.Codec, before: Observation, now: Observation,
                                        final: Observation, reportOffset: nat, eventsOffset: nat,
                                        view: seq<Verdict>, packets: seq<PacketEvent>)
    requires GrewTo(before, now) && GrewTo(now, final)
    requires InStep(json, codec, before, reportOffset, eventsOffset, view, packets)
    ensures var (lines, next) := ReadNewLines(now.report, reportOffset);
            Fold(Fold(view, VerdictsIn(json, lines)), VerdictsIn(json, ReadNewLines(final.report, next).0))
            == BatchTests(json, final.report)
  {
    PollBoth(json, codec, before, now, reportOffset, eventsOffset, view, packets);
    var report, events := ReadNewLines(now.report, reportOffset), ReadNewLines(now.events, eventsOffset);
    hide InStep, BatchTests, Fold, VerdictsIn, LogPipeline.Parse, ReadNewLines;
    PollBoth(json, codec, now, final, report.1, events.1, Fold(view, VerdictsIn(json, report.0)),
             packets + LogPipeline.Parse(codec, events.0));
  }

  /** What the packets come to when the poll is cut short. */
  lemma {:induction false} CutEvents(json: Json, codec: LogPipeline.Codec, before: Observation, now: Observation,
                                     final: Observation, reportOffset: nat, eventsOffset: nat,
                                     view: seq<Verdict>, packets: seq<PacketEvent>, interrupt: Interrupt)
    requires GrewTo(before, now) && GrewTo(now, final) && !interrupt.AtYield?
    requires InStep(json, codec, before, reportOffset, eventsOffset, view, packets)
    ensures BatchEvents(codec, before.events) <= BatchEvents(codec, final.events)
    ensures packets
            + (if interrupt.InEvents? then
                 LogPipeline.Parse(codec, Front(ReadNewLines(now.events, eventsOffset).0, interrupt.lines)) else [])
            + LogPipeline.Parse(codec, ReadNewLines(final.events, eventsOffset).0)
         == Doubled(codec, before.events, now.events, final.events, interrupt)
  {
    assert packets == BatchEvents(codec, before.events);
    assert eventsOffset == CompleteLength(Content(before.events));
    PollBoth(json, codec, before, final, reportOffset, eventsOffset, view, packets);
    var rest := LogPipeline.Parse(codec, ReadNewLines(final.events, eventsOffset).0);
    hide InStep, BatchTests, BatchEvents, Fold, VerdictsIn, LogPipeline.Parse, ReadNewLines;
    assert packets + rest == BatchEvents(codec, final.events);
    assert BatchEvents(codec, final.events)[|packets|..] == rest;
    assert packets + [] == packets;
  }

  /** The saved packets are those of one pass exactly when no packet was taken twice. */
  lemma {:induction false} DoubledIff(codec: LogPipeline.Codec, before: Option<Bytes>, now: Option<Bytes>,
                                      final: Option<Bytes>, interrupt: Interrupt)
    requires BatchEvents(codec, before) <= BatchEvents(codec, final)
    ensures Doubled(codec, before, now, final, interrupt) == BatchEvents(codec, final)
       <==> (interrupt.InEvents? ==>
               LogPipeline.Parse(codec, Front(ReadNewLines(now, CompleteLength(Content(before))).0,
                                               interrupt.lines)) == [])
  {
    hide BatchEvents, LogPipeline.Parse, ReadNewLines;
    var taken, batch := BatchEvents(codec, before), BatchEvents(codec, final);
    assert taken + batch[|taken|..] == batch;
    assert taken + [] == taken;
  }

  /** The smallest such run: one packet in the log, and an interrupt in the drain that
      has just taken it. It is saved twice. */
  lemma {:induction false} InterruptedDrainDoubles(codec: LogPipeline.Codec, e: PacketEvent)
    requires LogPipeline.Faithful(codec, [e])
    ensures var file := Some(LogPipeline.LogBytes(codec, [e]));
            BatchEvents(codec, file) == [e] && Doubled(codec, None, file, file, InEvents(1)) == [e, e]
  {
    OnePacketLog(codec, e);
    NothingSeen(codec);
    hide *;
    DoubledParts(codec, None, Some(LogPipeline.LogBytes(codec, [e])), e);
  }

  /** A log of one packet: its lines, whole or the first of them, are that packet. */
  lemma {:induction false} OnePacketLog(codec: LogPipeline.Codec, e: PacketEvent)
    requires LogPipeline.Faithful(codec, [e])
    ensures var file := Some(LogPipeline.LogBytes(codec, [e]));
            && BatchEvents(codec, file) == [e]
            && LogPipeline.Parse(codec, Front(ReadNewLines(file, 0).0, 1)) == [e]
  {
    hide *;
    LogPipeline.LogReadsBack(codec, [e]);
    WholeFile(LogPipeline.LogBytes(codec, [e]));
    OnePacketLine(codec, e);
    BatchOfWhole(codec, LogPipeline.LogBytes(codec, [e]));
    FirstOfOne(LinesOf(LogPipeline.LogBytes(codec, [e])));
  }

  lemma WholeFile(data: Bytes)
    requires WholeLines(data)
    ensures Complete(data) == data && ReadNewLines(Some(data), 0).0 == LinesOf(data)
  {
    hide LinesOf, ReadNewLines, CompleteLength;
    assert data[..|data|] == data && data[0..] == data;
    CompleteIs(data, |data|);
    NewLinesAre(Some(data), 0);
  }

  lemma BatchOfWhole(codec: LogPipeline.Codec, data: Bytes)
    requires Complete(data) == data
    ensures BatchEvents(codec, Some(data)) == LogPipeline.Parse(codec, LinesOf(data))
  {
  }

  lemma OnePacketLine(codec: LogPipeline.Codec, e: PacketEvent)
    requires LogPipeline.Faithful(codec, [e])
    ensures |LinesOf(LogPipeline.LogBytes(codec, [e]))| == 1
  {
    hide LinesOf, LogPipeline.Line, LogPipeline.Faithful;
    assert LogPipeline.LogBytes(codec, [e]) == LogPipeline.LogBytes(codec, []) + LogPipeline.Line(codec, e);
    assert LogPipeline.LogBytes(codec, []) + LogPipeline.Line(codec, e) == LogPipeline.Line(codec, e);
    LogPipeline.OneLine(codec, e);
  }

  lemma FirstOfOne(lines: seq<Text>)
    requires |lines| == 1
    ensures Front(lines, 1) == lines
  {
  }

  lemma NothingSeen(codec: LogPipeline.Codec)
    ensures BatchEvents(codec, None) == [] && CompleteLength(Content(None)) == 0
  {
    assert LinesOf([]) == [];
  }

  lemma DoubledParts(codec: LogPipeline.Codec, before: Option<Bytes>, file: Option<Bytes>, e: PacketEvent)
    requires BatchEvents(codec, before) == [] && CompleteLength(Content(before)) == 0
    requires BatchEvents(codec, file) == [e] && LogPipeline.Parse(codec, Front(ReadNewLines(file, 0).0, 1)) == [e]
    ensures Doubled(codec, before, file, file, InEvents(1)) == [e, e]
  {
    hide BatchEvents, LogPipeline.Parse, ReadNewLines, Front, CompleteLength;
  }

  function LastSeen(polls: seq<Observation>, i: nat): Observation
    requires i <= |polls|
  {
    if i == 0 then Observation(None, None) else polls[i - 1]
  }

  /** The polling loop, up to the end of the subprocess or the interrupt. */
  method PollWhileRunning(json: Json, codec: LogPipeline.Codec, polls: seq<Observation>)
    returns (result: TestRunResult, reportOffset: nat, eventsOffset: nat, shown: seq<seq<Verdict>>)
    requires forall i :: 0 <= i < |polls| - 1 ==> GrewTo(polls[i], polls[i + 1])
    ensures result.Valid() && fresh(result) && forall k :: 0 <= k < |result.tests| ==> fresh(result.tests[k])
    ensures InStep(json, codec, LastSeen(polls, |polls|), reportOffset, eventsOffset,
                   result.View(), result.packetEvents)
    ensures |shown| == |polls| && forall i :: 0 <= i < |polls| ==> shown[i] == BatchTests(json, polls[i].report)
  {
    hide InStep, BatchTests, BatchEvents;
    result := new TestRunResult();
    reportOffset, eventsOffset, shown := 0, 0, [];
    InStepAtStart(json, codec);
    for i := 0 to |polls|
      invariant result.Valid() && fresh(result) && forall k :: 0 <= k < |result.tests| ==> fresh(result.tests[k])
      invariant InStep(json, codec, LastSeen(polls, i), reportOffset, eventsOffset, result.View(), result.packetEvents)
      invariant |shown| == i && forall k :: 0 <= k < i ==> shown[k] == BatchTests(json, polls[k].report)
    {
      assert GrewTo(LastSeen(polls, i), polls[i]);
      reportOffset, eventsOffset :=
        DrainBoth(json, codec, result, LastSeen(polls, i), polls[i], reportOffset, eventsOffset);
      shown := shown + [result.View()];
    }
  }

  /** One poll of both logs. */
  method DrainBoth(json: Json, codec: LogPipeline.Codec, result: TestRunResult, ghost before: Observation,
                   now: Observation, reportOffset: nat, eventsOffset: nat)
    returns (newReportOffset: nat, newEventsOffset: nat)
    requires result.Valid() && GrewTo(before, now)
    requires InStep(json, codec, before, reportOffset, eventsOffset, result.View(), result.packetEvents)
    modifies result, result.tests
    ensures result.Valid()
    ensures forall k :: 0 <= k < |result.tests| ==> result.tests[k] in old(result.tests) || fresh(result.tests[k])
    ensures InStep(json, codec, now, newReportOffset, newEventsOffset, result.View(), result.packetEvents)
    ensures reportOffset <= newReportOffset && eventsOffset <= newEventsOffset
    ensures result.View() == BatchTests(json, now.report)
    ensures result.packetEvents == BatchEvents(codec, now.events)
  {
    hide InStep, BatchTests, BatchEvents;
    PollBoth(json, codec, before, now, reportOffset, eventsOffset, result.View(), result.packetEvents);
    newReportOffset := result.DrainTestEvents(json, now.report, reportOffset);
    newEventsOffset := result.DrainPacketEvents(codec, now.events, eventsOffset);
  }

  /** What one poll of both logs must leave behind. */
  lemma PollBoth(json: Json, codec: LogPipeline.Codec, before: Observation, now: Observation,
                 reportOffset: nat, eventsOffset: nat, view: seq<Verdict>, packets: seq<PacketEvent>)
    requires GrewTo(before, now) && InStep(json, codec, before, reportOffset, eventsOffset, view, packets)
    ensures var report, events := ReadNewLines(now.report, reportOffset), ReadNewLines(now.events, eventsOffset);
            var newView := Fold(view, VerdictsIn(json, report.0));
            var newPackets := packets + LogPipeline.Parse(codec, events.0);
            && reportOffset <= report.1 && eventsOffset <= events.1
            && InStep(json, codec, now, report.1, events.1, newView, newPackets)
            && newView == BatchTests(json, now.report) && newPackets == BatchEvents(codec, now.events)
  {
    assert Content(now.report)[..reportOffset] == Content(before.report)[..reportOffset];
    assert Content(now.events)[..eventsOffset] == Content(before.events)[..eventsOffset];
    ReportPoll(json, now.report, reportOffset, view);
    EventPoll(codec, now.events, eventsOffset, packets);
  }
}
