/**
 Test verdicts: what one report-log line says about a test, and how the reports
 of a test's phases combine into one entry per test, the worst one winning.
 */
module Verdicts {
  import opened Basics
  import opened Lines

  datatype Outcome = Passed | Skipped | Failed | Errored

  function Severity(outcome: Outcome): nat {
    match outcome
    case Passed => 0
    case Skipped => 1
    case Failed => 2
    case Errored => 3
  }

  datatype Verdict =
    Verdict(nodeid: string, outcome: Outcome, duration: real, markers: seq<string>, message: Option<string>)

  /** One TestReport object of the log; `longMessage` is the message its longrepr yields. */
  datatype Report =
    Report(phase: string, outcome: string, nodeid: string, duration: real, markers: seq<string>,
           longMessage: Option<string>)

  /** Decodes a log line; nothing for a line that is not JSON or not a TestReport. */
  type Json = Text -> Option<Report>

  /** Which outcome a phase's report carries, if it carries one. */
  function PhaseOutcome(phase: string, outcome: string): Option<Outcome> {
    if phase == "call" then
      Some(if outcome == "passed" then Passed else if outcome == "failed" then Failed
           else if outcome == "skipped" then Skipped else Errored)
    else if phase == "setup" then
      if outcome == "passed" then None else Some(if outcome == "skipped" then Skipped else Errored)
    else if phase == "teardown" then
      if outcome != "failed" then None else Some(Errored)
    else None
  }

  function ParseReportLogLine(json: Json, line: Text): Option<Verdict> {
    match json(line)
    case None => None
    case Some(r) =>
      match PhaseOutcome(r.phase, r.outcome)
      case None => None
      case Some(o) =>
        Some(Verdict(r.nodeid, o, r.duration, r.markers, if o == Passed then None else r.longMessage))
  }

  /** The verdicts among some log lines, in order. */
  function VerdictsIn(json: Json, lines: seq<Text>): seq<Verdict> {
    if lines == [] then []
    else
      var before := VerdictsIn(json, lines[..|lines| - 1]);
      match ParseReportLogLine(json, lines[|lines| - 1])
      case None => before
      case Some(v) => before + [v]
  }

  // --- one entry per test ----------------------------------------------------

  predicate OwnMessage(v: Verdict) {
    v.message.Some? && v.message.value != ""
  }

  /** The message survives a worsening report that has none of its own. */
  function Worsened(entry: Verdict, v: Verdict): Verdict {
    entry.(outcome := v.outcome,
           duration := entry.duration + v.duration,
           message := if OwnMessage(v) then v.message else entry.message)
  }

  function Merge(entry: Verdict, v: Verdict): Verdict {
    if Severity(v.outcome) > Severity(entry.outcome) then Worsened(entry, v) else entry
  }

  /** Some entry is about this test. */
  predicate Mentions(tests: seq<Verdict>, nodeid: string) {
    exists i :: 0 <= i < |tests| && tests[i].nodeid == nodeid
  }

  function PositionOf(tests: seq<Verdict>, nodeid: string): (p: Option<nat>)
    ensures p.Some? ==> p.value < |tests| && tests[p.value].nodeid == nodeid
    ensures p.None? <==> !Mentions(tests, nodeid)
  {
    if tests == [] then None
    else if tests[|tests| - 1].nodeid == nodeid then Some(|tests| - 1)
    else PositionOf(tests[..|tests| - 1], nodeid)
  }

  function Upsert(tests: seq<Verdict>, v: Verdict): seq<Verdict> {
    match PositionOf(tests, v.nodeid)
    case None => tests + [v]
    case Some(i) => tests[i := Merge(tests[i], v)]
  }

  function Fold(tests: seq<Verdict>, events: seq<Verdict>): seq<Verdict> {
    if events == [] then tests else Upsert(Fold(tests, events[..|events| - 1]), events[|events| - 1])
  }

  /** Draining in two goes is draining once. */
  lemma {:induction false} FoldInTwoGoes(tests: seq<Verdict>, a: seq<Verdict>, b: seq<Verdict>)
    ensures Fold(tests, a + b) == Fold(Fold(tests, a), b)
    decreases |b|
  {
    if b == [] {
      assert a + b == a;
    } else {
      assert (a + b)[..|a + b| - 1] == a + b[..|b| - 1];
      FoldInTwoGoes(tests, a, b[..|b| - 1]);
    }
  }

  lemma {:induction false} VerdictsDistribute(json: Json, a: seq<Text>, b: seq<Text>)
    ensures VerdictsIn(json, a + b) == VerdictsIn(json, a) + VerdictsIn(json, b)
    decreases |b|
  {
    if b == [] {
      assert a + b == a;
    } else {
      assert (a + b)[..|a + b| - 1] == a + b[..|b| - 1];
      VerdictsDistribute(json, a, b[..|b| - 1]);
    }
  }

  /** One more log line, as the drain takes it. */
  function TakeLine(json: Json, tests: seq<Verdict>, line: Text): seq<Verdict> {
    match ParseReportLogLine(json, line)
    case None => tests
    case Some(v) => Upsert(tests, v)
  }

  lemma {:induction false} FoldOneLine(json: Json, tests: seq<Verdict>, lines: seq<Text>)
    requires lines != []
    ensures Fold(tests, VerdictsIn(json, lines))
         == TakeLine(json, Fold(tests, VerdictsIn(json, lines[..|lines| - 1])), lines[|lines| - 1])
  {
    var before := VerdictsIn(json, lines[..|lines| - 1]);
    match ParseReportLogLine(json, lines[|lines| - 1])
    case None =>
    case Some(v) => assert (before + [v])[..|before + [v]| - 1] == before;
  }

  lemma FoldNextLine(json: Json, tests: seq<Verdict>, lines: seq<Text>, i: nat)
    requires i < |lines|
    ensures Fold(tests, VerdictsIn(json, lines[..i + 1]))
         == TakeLine(json, Fold(tests, VerdictsIn(json, lines[..i])), lines[i])
  {
    assert lines[..i + 1][..i] == lines[..i];
    hide *;
    FoldOneLine(json, tests, lines[..i + 1]);
  }

  // --- taking reports again ----------------------------------------------------

  /** Some entry already says at least as much as this verdict. */
  ghost predicate Taken(tests: seq<Verdict>, v: Verdict) {
    exists i :: 0 <= i < |tests| && tests[i].nodeid == v.nodeid && Severity(v.outcome) <= Severity(tests[i].outcome)
  }

  lemma {:induction false} TakenChangesNothing(tests: seq<Verdict>, v: Verdict)
    requires OnePerTest(tests) && Taken(tests, v)
    ensures Upsert(tests, v) == tests
  {
    var i :| 0 <= i < |tests| && tests[i].nodeid == v.nodeid && Severity(v.outcome) <= Severity(tests[i].outcome);
    var p := PositionOf(tests, v.nodeid);
    assert p.Some? && p.value == i;
  }

  lemma {:induction false} UpsertTakes(tests: seq<Verdict>, v: Verdict, w: Verdict)
    requires OnePerTest(tests) && (w == v || Taken(tests, w))
    ensures OnePerTest(Upsert(tests, v)) && Taken(Upsert(tests, v), w)
  {
    UpsertOnePerTest(tests, v);
    UpsertShape(tests, v);
    hide Upsert;
    var after := Upsert(tests, v);
    if Taken(tests, w) {
      var i :| 0 <= i < |tests| && tests[i].nodeid == w.nodeid && Severity(w.outcome) <= Severity(tests[i].outcome);
      assert after[i].nodeid == w.nodeid && Severity(w.outcome) <= Severity(after[i].outcome);
    } else if Mentions(tests, v.nodeid) {
      var i :| 0 <= i < |tests| && tests[i].nodeid == v.nodeid;
      assert after[i] == Merge(tests[i], v);
      assert after[i].nodeid == w.nodeid && Severity(w.outcome) <= Severity(after[i].outcome);
    } else {
      assert after[|tests|] == v;
    }
  }

  lemma {:induction false} FoldTakes(tests: seq<Verdict>, events: seq<Verdict>, w: Verdict)
    requires OnePerTest(tests) && (w in events || Taken(tests, w))
    ensures OnePerTest(Fold(tests, events)) && Taken(Fold(tests, events), w)
  {
    if events != [] {
      var before, v := events[..|events| - 1], events[|events| - 1];
      assert events == before + [v];
      FoldKeepsOnePerTest(tests, before);
      if w in before || Taken(tests, w) { FoldTakes(tests, before, w); }
      hide Fold, Taken, OnePerTest;
      UpsertTakes(Fold(tests, before), v, w);
      FoldLast(tests, events);
    }
  }

  lemma FoldLast(tests: seq<Verdict>, events: seq<Verdict>)
    requires events != []
    ensures Fold(tests, events) == Upsert(Fold(tests, events[..|events| - 1]), events[|events| - 1])
  {
  }

  lemma {:induction false} FoldKeepsOnePerTest(tests: seq<Verdict>, events: seq<Verdict>)
    requires OnePerTest(tests)
    ensures OnePerTest(Fold(tests, events))
  {
    if events != [] {
      FoldKeepsOnePerTest(tests, events[..|events| - 1]);
      UpsertOnePerTest(Fold(tests, events[..|events| - 1]), events[|events| - 1]);
    }
  }

  lemma {:induction false} FoldOfTaken(tests: seq<Verdict>, events: seq<Verdict>)
    requires OnePerTest(tests) && forall w :: w in events ==> Taken(tests, w)
    ensures Fold(tests, events) == tests
  {
    if events != [] {
      FoldOfTaken(tests, events[..|events| - 1]);
      TakenChangesNothing(tests, events[|events| - 1]);
    }
  }

  /** A drain that starts over after it was cut short changes nothing: verdicts that
      were taken once are taken for good. */
  lemma {:induction false} StartingOverChangesNothing(tests: seq<Verdict>, a: seq<Verdict>, b: seq<Verdict>)
    requires OnePerTest(tests)
    ensures Fold(Fold(tests, a), a + b) == Fold(tests, a + b)
  {
    var once := Fold(tests, a);
    FoldKeepsOnePerTest(tests, a);
    forall w | w in a ensures Taken(once, w) {
      FoldTakes(tests, a, w);
    }
    FoldOfTaken(once, a);
    FoldInTwoGoes(once, a, b);
    FoldInTwoGoes(tests, a, b);
  }

  // --- a worsening that is cut short ---------------------------------------------

  /** A worsening is three assignments: the outcome, the message, the duration. Here
      the first one was made, and perhaps the second. */
  function HalfMerged(entry: Verdict, v: Verdict, withMessage: bool): Verdict {
    if Severity(v.outcome) > Severity(entry.outcome) then
      entry.(outcome := v.outcome, message := if withMessage && OwnMessage(v) then v.message else entry.message)
    else entry
  }

  function HalfTaken(tests: seq<Verdict>, v: Option<Verdict>, withMessage: bool): seq<Verdict> {
    if v.None? then tests
    else
      match PositionOf(tests, v.value.nodeid)
      case None => tests
      case Some(i) => tests[i := HalfMerged(tests[i], v.value, withMessage)]
  }

  /** The verdict is about to worsen an entry. */
  predicate Worsens(tests: seq<Verdict>, v: Verdict) {
    match PositionOf(tests, v.nodeid)
    case None => false
    case Some(i) => Severity(v.outcome) > Severity(tests[i].outcome)
  }

  /** One entry after some verdicts. */
  function MergeAll(entry: Verdict, events: seq<Verdict>): Verdict {
    if events == [] then entry
    else
      var before := MergeAll(entry, events[..|events| - 1]);
      if events[|events| - 1].nodeid == entry.nodeid then Merge(before, events[|events| - 1]) else before
  }

  /** One of the verdicts takes the entry over with a message of its own. */
  predicate MessageReplaced(entry: Verdict, events: seq<Verdict>) {
    events != []
    && var last := events[|events| - 1];
       || MessageReplaced(entry, events[..|events| - 1])
       || (last.nodeid == entry.nodeid && OwnMessage(last)
           && Severity(last.outcome) > Severity(MergeAll(entry, events[..|events| - 1]).outcome))
  }

  /** The same but for time and message. */
  predicate SameVerdict(a: Verdict, b: Verdict) {
    a.nodeid == b.nodeid && a.outcome == b.outcome && a.markers == b.markers
  }

  /** Two tables that differ at most in the time and message of entry `i`. */
  ghost predicate Alike(a: seq<Verdict>, b: seq<Verdict>, i: nat) {
    && |a| == |b| && i < |a| && SameVerdict(a[i], b[i])
    && forall j :: 0 <= j < |a| && j != i ==> a[j] == b[j]
  }

  /** What is behind stays behind: merging treats both entries alike, so the times keep
      their distance, and the messages agree once they are replaced. */
  lemma {:induction false} MergeAllAlike(a: Verdict, b: Verdict, events: seq<Verdict>)
    requires SameVerdict(a, b)
    ensures var x, y := MergeAll(a, events), MergeAll(b, events);
            && SameVerdict(x, y)
            && y.duration - x.duration == b.duration - a.duration
            && (x.message == y.message <==> a.message == b.message || MessageReplaced(b, events))
  {
    if events != [] {
      MergeAllAlike(a, b, events[..|events| - 1]);
    }
  }

  lemma {:induction false} UpsertAlike(a: seq<Verdict>, b: seq<Verdict>, i: nat, v: Verdict)
    requires OnePerTest(a) && OnePerTest(b) && Alike(a, b, i)
    ensures Alike(Upsert(a, v), Upsert(b, v), i)
    ensures var merged := (e: Verdict) => if v.nodeid == e.nodeid then Merge(e, v) else e;
            Upsert(a, v)[i] == merged(a[i]) && Upsert(b, v)[i] == merged(b[i])
  {
    UpsertShape(a, v);
    UpsertShape(b, v);
    SameMentions(a, b, v.nodeid);
    SameMentions(b, a, v.nodeid);
    hide Upsert, Mentions;
  }

  lemma SameMentions(a: seq<Verdict>, b: seq<Verdict>, nodeid: string)
    requires |a| == |b| && forall j :: 0 <= j < |a| ==> a[j].nodeid == b[j].nodeid
    ensures Mentions(a, nodeid) ==> Mentions(b, nodeid)
  {
    if j :| 0 <= j < |a| && a[j].nodeid == nodeid {
      assert b[j].nodeid == nodeid;
    }
  }

  lemma {:induction false} FoldAlike(a: seq<Verdict>, b: seq<Verdict>, i: nat, events: seq<Verdict>)
    requires OnePerTest(a) && OnePerTest(b) && Alike(a, b, i)
    ensures Alike(Fold(a, events), Fold(b, events), i)
    ensures Fold(a, events)[i] == MergeAll(a[i], events) && Fold(b, events)[i] == MergeAll(b[i], events)
  {
    if events != [] {
      var before, v := events[..|events| - 1], events[|events| - 1];
      FoldAlike(a, b, i, before);
      FoldKeepsOnePerTest(a, before);
      FoldKeepsOnePerTest(b, before);
      MergeAllKeepsTest(a[i], before);
      MergeAllKeepsTest(b[i], before);
      hide OnePerTest, Alike, Upsert;
      UpsertAlike(Fold(a, before), Fold(b, before), i, v);
    }
  }

  lemma {:induction false} MergeAllKeepsTest(entry: Verdict, events: seq<Verdict>)
    ensures MergeAll(entry, events).nodeid == entry.nodeid
  {
    if events != [] { MergeAllKeepsTest(entry, events[..|events| - 1]); }
  }

  /** Nothing is lost when the worsening is cut short: there is none, or it brings no
      time, and no message that would be missed in the end. */
  predicate NothingLost(tests: seq<Verdict>, v: Verdict, withMessage: bool, later: seq<Verdict>) {
    Worsens(tests, v) ==>
      var entry := tests[PositionOf(tests, v.nodeid).value];
      && v.duration == 0.0
      && (withMessage || !OwnMessage(v) || v.message == entry.message || MessageReplaced(Worsened(entry, v), later))
  }

  lemma HalfTakenAlike(tests: seq<Verdict>, v: Verdict, withMessage: bool)
    requires OnePerTest(tests) && Worsens(tests, v)
    ensures var i := PositionOf(tests, v.nodeid).value;
            var half, full := HalfTaken(tests, Some(v), withMessage), Upsert(tests, v);
            && OnePerTest(half) && OnePerTest(full) && Alike(half, full, i)
            && half[i] == HalfMerged(tests[i], v, withMessage) && full[i] == Worsened(tests[i], v)
  {
    hide PositionOf;
  }

  /** After a worsening that was cut short, the drain starts over. The tests and their
      outcomes are those of an undisturbed drain; times and messages are too exactly if
      the worsening, if there was one, had nothing to lose. */
  lemma {:induction false} HalfTakenIff(tests: seq<Verdict>, a: seq<Verdict>, v: Option<Verdict>, b: seq<Verdict>,
                                        withMessage: bool)
    requires OnePerTest(tests)
    ensures var once, events := Fold(tests, a), a + Found(v) + b;
            var saved, batch := Fold(HalfTaken(once, v, withMessage), events), Fold(tests, events);
            && |saved| == |batch| && (forall j :: 0 <= j < |saved| ==> SameVerdict(saved[j], batch[j]))
            && (saved == batch <==> (v.Some? ==> NothingLost(once, v.value, withMessage, b)))
  {
    var once := Fold(tests, a);
    if v.Some? && Worsens(once, v.value) {
      assert Found(v) == [v.value];
      hide *;
      TornIff(tests, a, v.value, b, withMessage);
    } else {
      NothingTorn(once, v, withMessage, b);
      AllTheSame(Fold(tests, a + Found(v) + b));
      hide *;
      Assoc(a, Found(v), b);
      StartingOverChangesNothing(tests, a, Found(v) + b);
    }
  }

  lemma AllTheSame(tests: seq<Verdict>)
    ensures forall j :: 0 <= j < |tests| ==> SameVerdict(tests[j], tests[j])
  {
  }

  lemma NothingTorn(tests: seq<Verdict>, v: Option<Verdict>, withMessage: bool, later: seq<Verdict>)
    requires v.Some? ==> !Worsens(tests, v.value)
    ensures HalfTaken(tests, v, withMessage) == tests
    ensures v.Some? ==> NothingLost(tests, v.value, withMessage, later)
  {
  }

  /** The verdict of a line that has one. */
  function Found(v: Option<Verdict>): seq<Verdict> {
    if v.Some? then [v.value] else []
  }

  lemma {:induction false} TornIff(tests: seq<Verdict>, a: seq<Verdict>, v: Verdict, b: seq<Verdict>,
                                        withMessage: bool)
    requires OnePerTest(tests) && Worsens(Fold(tests, a), v)
    ensures var once := Fold(tests, a);
            var saved, batch := Fold(HalfTaken(once, Some(v), withMessage), a + [v] + b), Fold(tests, a + [v] + b);
            && |saved| == |batch| && (forall j :: 0 <= j < |saved| ==> SameVerdict(saved[j], batch[j]))
            && (saved == batch <==> NothingLost(once, v, withMessage, b))
  {
    var once := Fold(tests, a);
    var half, full := HalfTaken(once, Some(v), withMessage), Upsert(once, v);
    var i := PositionOf(once, v.nodeid).value;
    FoldKeepsOnePerTest(tests, a);
    HalfTakenAlike(once, v, withMessage);
    hide Fold, Upsert, HalfTaken, PositionOf, OnePerTest, MergeAll, MessageReplaced;
    HalfTakenStartsOver(tests, a, v, b, withMessage);
    FoldAlike(half, full, i, b);
    MergeAllAlike(half[i], full[i], b);
    TablesEqualIff(Fold(half, b), Fold(full, b), i);
  }

  lemma TablesEqualIff(a: seq<Verdict>, b: seq<Verdict>, i: nat)
    requires Alike(a, b, i)
    ensures a == b <==> a[i].duration == b[i].duration && a[i].message == b[i].message
    ensures forall j :: 0 <= j < |a| ==> SameVerdict(a[j], b[j])
  {
  }

  /** Everything up to the torn verdict has been taken, the verdict included. */
  lemma {:induction false} HalfTakenStartsOver(tests: seq<Verdict>, a: seq<Verdict>, v: Verdict, b: seq<Verdict>,
                                               withMessage: bool)
    requires OnePerTest(tests) && Worsens(Fold(tests, a), v)
    ensures var once := Fold(tests, a); var half := HalfTaken(once, Some(v), withMessage);
            Fold(half, a + [v] + b) == Fold(half, b) && Fold(tests, a + [v] + b) == Fold(Upsert(once, v), b)
  {
    var once := Fold(tests, a);
    var half := HalfTaken(once, Some(v), withMessage);
    FoldKeepsOnePerTest(tests, a);
    HalfTakenAlike(once, v, withMessage);
    forall w | w in a + [v] ensures Taken(half, w) {
      if w in a { FoldTakes(tests, a, w); }
      HalfTakenTakes(once, v, withMessage, w);
    }
    FoldOfTaken(half, a + [v]);
    hide HalfTaken, Upsert, Worsens;
    FoldInTwoGoes(half, a + [v], b);
    FoldInTwoGoes(tests, a + [v], b);
    FoldLast(tests, a + [v]);
    assert (a + [v])[..|a|] == a;
  }

  lemma {:induction false} HalfTakenTakes(tests: seq<Verdict>, v: Verdict, withMessage: bool, w: Verdict)
    requires OnePerTest(tests) && Worsens(tests, v) && (w == v || Taken(tests, w))
    ensures Taken(HalfTaken(tests, Some(v), withMessage), w)
  {
    HalfTakenAlike(tests, v, withMessage);
    var half := HalfTaken(tests, Some(v), withMessage);
    var at := PositionOf(tests, v.nodeid).value;
    hide HalfTaken, PositionOf;
    if Taken(tests, w) {
      var i :| 0 <= i < |tests| && tests[i].nodeid == w.nodeid && Severity(w.outcome) <= Severity(tests[i].outcome);
      assert half[i].nodeid == w.nodeid && Severity(w.outcome) <= Severity(half[i].outcome);
    } else {
      assert half[at].nodeid == w.nodeid && Severity(w.outcome) <= Severity(half[at].outcome);
    }
  }

  /** The smallest such run: a test that took time to fail in its teardown, cut short
      in that report. Its time is lost for good, whatever is reported later. */
  lemma {:induction false} TornReportLosesTime(passed: Verdict, failed: Verdict, withMessage: bool)
    requires passed.nodeid == failed.nodeid && Severity(failed.outcome) > Severity(passed.outcome)
    requires failed.duration != 0.0
    ensures Fold(HalfTaken([passed], Some(failed), withMessage), [passed, failed]) != Fold([], [passed, failed])
  {
    assert Fold([], [passed]) == [passed] by {
      assert [passed][..0] == [];
      FoldLast([], [passed]);
    }
    assert PositionOf([passed], failed.nodeid) == Some(0);
    HalfTakenIff([], [passed], Some(failed), [], withMessage);
    assert [passed] + Found(Some(failed)) + [] == [passed, failed];
  }

  // --- what an entry means -----------------------------------------------------

  predicate OnePerTest(tests: seq<Verdict>) {
    forall i, j :: 0 <= i < j < |tests| ==> tests[i].nodeid != tests[j].nodeid
  }

  /** The verdicts about one test, in order. */
  function About(events: seq<Verdict>, nodeid: string): (h: seq<Verdict>)
    ensures forall i :: 0 <= i < |h| ==> h[i].nodeid == nodeid && h[i] in events
  {
    if events == [] then []
    else
      var before := About(events[..|events| - 1], nodeid);
      if events[|events| - 1].nodeid == nodeid then before + [events[|events| - 1]] else before
  }

  /** Position of a test's first verdict. */
  function FirstAt(events: seq<Verdict>, nodeid: string): (k: nat)
    ensures k <= |events|
    ensures k < |events| ==> events[k].nodeid == nodeid
    ensures forall i :: 0 <= i < k ==> events[i].nodeid != nodeid
  {
    if events == [] then 0
    else
      var k := FirstAt(events[..|events| - 1], nodeid);
      if k < |events| - 1 || events[|events| - 1].nodeid == nodeid then k else |events|
  }

  /** Verdict `i` is strictly worse than every earlier one of the same test. */
  predicate Worsening(h: seq<Verdict>, i: nat)
    requires i < |h|
  {
    forall j :: 0 <= j < i ==> Severity(h[j].outcome) < Severity(h[i].outcome)
  }

  /** Time reported by the worsening verdicts alone. */
  function WorseningTime(h: seq<Verdict>): real {
    if h == [] then 0.0
    else WorseningTime(h[..|h| - 1]) + (if Worsening(h, |h| - 1) then h[|h| - 1].duration else 0.0)
  }

  /** The latest message among the worsening verdicts, else the first one's. */
  function WorseningMessage(h: seq<Verdict>): Option<string>
    requires h != []
  {
    var last := h[|h| - 1];
    if |h| == 1 || (Worsening(h, |h| - 1) && OwnMessage(last)) then last.message
    else WorseningMessage(h[..|h| - 1])
  }

  /** What the entry of a test with these verdicts must say. */
  ghost predicate Summarizes(entry: Verdict, h: seq<Verdict>) {
    && h != []
    && entry.nodeid == h[0].nodeid && entry.markers == h[0].markers
    && (exists i :: 0 <= i < |h| && entry.outcome == h[i].outcome)
    && (forall i :: 0 <= i < |h| ==> Severity(h[i].outcome) <= Severity(entry.outcome))
    && entry.duration == WorseningTime(h)
    && entry.message == WorseningMessage(h)
  }

  /** Merging one more verdict keeps the entry a summary. */
  lemma {:induction false} MergeSummarizes(entry: Verdict, h: seq<Verdict>, v: Verdict)
    requires Summarizes(entry, h)
    ensures Summarizes(Merge(entry, v), h + [v])
  {
    var k := h + [v];
    assert k[..|k| - 1] == h && k[0] == h[0] && k[|k| - 1] == v;
    var i :| 0 <= i < |h| && entry.outcome == h[i].outcome;
    assert k[i] == h[i];
    assert Worsening(k, |h|) <==> Severity(v.outcome) > Severity(entry.outcome) by {
      assert forall j :: 0 <= j < |h| ==> k[j] == h[j];
    }
    if Severity(v.outcome) > Severity(entry.outcome) {
      assert Merge(entry, v).outcome == k[|h|].outcome;
    } else {
      assert Merge(entry, v).outcome == k[i].outcome;
    }
  }

  lemma {:induction false} FirstSummarizes(v: Verdict)
    ensures Summarizes(v, [v])
  {
    assert [v][..0] == [];
    assert [v][0] == v;
    assert WorseningTime([v]) == WorseningTime([]) + v.duration;
  }

  /** The table after some events: one entry per test, in the order of the first
      verdicts, each summarizing all verdicts about its test. */
  ghost predicate Tabulates(tests: seq<Verdict>, events: seq<Verdict>) {
    && OnePerTest(tests)
    && InFirstOrder(tests, events)
    && (forall i :: 0 <= i < |tests| ==> Summarizes(tests[i], About(events, tests[i].nodeid)))
    && (forall k :: 0 <= k < |events| ==> Mentions(tests, events[k].nodeid))
  }

  predicate InFirstOrder(tests: seq<Verdict>, events: seq<Verdict>) {
    forall i, j :: 0 <= i < j < |tests| ==> FirstAt(events, tests[i].nodeid) < FirstAt(events, tests[j].nodeid)
  }

  lemma {:induction false} AboutSomeone(events: seq<Verdict>, nodeid: string)
    ensures About(events, nodeid) == [] <==> FirstAt(events, nodeid) == |events|
  {
    if events != [] {
      AboutSomeone(events[..|events| - 1], nodeid);
    }
  }

  /** What one more event changes about one test. */
  lemma {:induction false} OneMore(events: seq<Verdict>, v: Verdict, nodeid: string)
    ensures About(events + [v], nodeid) == About(events, nodeid) + (if v.nodeid == nodeid then [v] else [])
    ensures FirstAt(events, nodeid) < |events| ==> FirstAt(events + [v], nodeid) == FirstAt(events, nodeid)
    ensures FirstAt(events, nodeid) == |events| ==> FirstAt(events + [v], nodeid) >= |events|
  {
    assert (events + [v])[..|events|] == events;
  }

  /** A test without an entry has not been reported. */
  lemma {:induction false} Unreported(tests: seq<Verdict>, events: seq<Verdict>, nodeid: string)
    requires Tabulates(tests, events) && !Mentions(tests, nodeid)
    ensures FirstAt(events, nodeid) == |events| && About(events, nodeid) == []
  {
    AboutSomeone(events, nodeid);
  }

  /** An upsert merges into the one entry of that test, or appends. */
  lemma {:induction false} UpsertShape(tests: seq<Verdict>, v: Verdict)
    requires OnePerTest(tests)
    ensures var after := Upsert(tests, v);
            && |tests| <= |after| <= |tests| + 1
            && (forall i :: 0 <= i < |tests| ==>
                  after[i] == if tests[i].nodeid == v.nodeid then Merge(tests[i], v) else tests[i])
            && (|after| > |tests| <==> !Mentions(tests, v.nodeid))
            && (|after| > |tests| ==> after[|tests|] == v)
  {
    var p := PositionOf(tests, v.nodeid);
    if p.Some? {
      assert forall i :: 0 <= i < |tests| && tests[i].nodeid == v.nodeid ==> i == p.value;
    }
  }

  lemma {:induction false} EntrySummarizes(entry: Verdict, events: seq<Verdict>, v: Verdict)
    requires Summarizes(entry, About(events, entry.nodeid))
    ensures Summarizes(if entry.nodeid == v.nodeid then Merge(entry, v) else entry, About(events + [v], entry.nodeid))
  {
    var h := About(events, entry.nodeid);
    OneMore(events, v, entry.nodeid);
    if entry.nodeid == v.nodeid {
      MergeSummarizes(entry, h, v);
    } else {
      assert h + [] == h;
    }
  }

  lemma {:induction false} UpsertSummarizes(tests: seq<Verdict>, events: seq<Verdict>, v: Verdict, i: nat)
    requires Tabulates(tests, events) && i < |Upsert(tests, v)|
    ensures Summarizes(Upsert(tests, v)[i], About(events + [v], Upsert(tests, v)[i].nodeid))
  {
    UpsertShape(tests, v);
    if i == |tests| {
      Unreported(tests, events, v.nodeid);
      OneMore(events, v, v.nodeid);
      assert [] + [v] == [v];
      FirstSummarizes(v);
    } else {
      EntrySummarizes(tests[i], events, v);
    }
  }

  lemma {:induction false} UpsertKeepsOrder(tests: seq<Verdict>, events: seq<Verdict>, v: Verdict)
    requires Tabulates(tests, events)
    ensures InFirstOrder(Upsert(tests, v), events + [v])
  {
    forall i | 0 <= i < |tests| ensures FirstAt(events, tests[i].nodeid) < |events| {
      assert Summarizes(tests[i], About(events, tests[i].nodeid));
      AboutSomeone(events, tests[i].nodeid);
    }
    if !Mentions(tests, v.nodeid) {
      Unreported(tests, events, v.nodeid);
    }
    OrderSurvives(tests, events, v);
  }

  lemma {:induction false} OrderSurvives(tests: seq<Verdict>, events: seq<Verdict>, v: Verdict)
    requires OnePerTest(tests) && InFirstOrder(tests, events)
    requires forall i :: 0 <= i < |tests| ==> FirstAt(events, tests[i].nodeid) < |events|
    requires !Mentions(tests, v.nodeid) ==> FirstAt(events, v.nodeid) == |events|
    ensures InFirstOrder(Upsert(tests, v), events + [v])
  {
    var after := Upsert(tests, v);
    UpsertShape(tests, v);
    OneMore(events, v, v.nodeid);
    forall i | 0 <= i < |tests|
      ensures after[i].nodeid == tests[i].nodeid
      ensures FirstAt(events + [v], tests[i].nodeid) == FirstAt(events, tests[i].nodeid)
    {
      OneMore(events, v, tests[i].nodeid);
    }
  }

  /** An upsert drops nobody. */
  lemma {:induction false} UpsertMentions(tests: seq<Verdict>, v: Verdict, nodeid: string)
    requires OnePerTest(tests) && (nodeid == v.nodeid || Mentions(tests, nodeid))
    ensures Mentions(Upsert(tests, v), nodeid)
  {
    var after := Upsert(tests, v);
    UpsertShape(tests, v);
    if Mentions(tests, nodeid) {
      var i :| 0 <= i < |tests| && tests[i].nodeid == nodeid;
      assert after[i].nodeid == nodeid;
    } else {
      assert after[|tests|].nodeid == nodeid;
    }
  }

  lemma {:induction false} UpsertOnePerTest(tests: seq<Verdict>, v: Verdict)
    requires OnePerTest(tests)
    ensures OnePerTest(Upsert(tests, v))
  {
    UpsertShape(tests, v);
    hide Upsert;
    forall i | 0 <= i < |tests| && !Mentions(tests, v.nodeid) ensures tests[i].nodeid != v.nodeid {
    }
  }

  /** Adding one event to a table keeps it a table. */
  lemma {:induction false} UpsertTabulates(tests: seq<Verdict>, events: seq<Verdict>, v: Verdict)
    requires Tabulates(tests, events)
    ensures Tabulates(Upsert(tests, v), events + [v])
  {
    UpsertOnePerTest(tests, v);
    hide Upsert, InFirstOrder, Summarizes, Mentions, OnePerTest, About;
    var after := Upsert(tests, v);
    UpsertKeepsOrder(tests, events, v);
    forall i | 0 <= i < |after| ensures Summarizes(after[i], About(events + [v], after[i].nodeid)) {
      UpsertSummarizes(tests, events, v, i);
    }
    forall k | 0 <= k < |events + [v]| ensures Mentions(after, (events + [v])[k].nodeid) {
      UpsertMentions(tests, v, (events + [v])[k].nodeid);
    }
  }

  lemma {:induction false} FoldOneMore(events: seq<Verdict>)
    requires events != []
    requires Tabulates(Fold([], events[..|events| - 1]), events[..|events| - 1])
    ensures Tabulates(Fold([], events), events)
  {
    hide Tabulates;
    var before, v := events[..|events| - 1], events[|events| - 1];
    UpsertTabulates(Fold([], before), before, v);
    assert before + [v] == events;
  }

  /** The whole log, folded: the table of its verdicts. */
  lemma {:induction false} FoldTabulates(events: seq<Verdict>)
    ensures Tabulates(Fold([], events), events)
  {
    if events != [] {
      FoldTabulates(events[..|events| - 1]);
      FoldOneMore(events);
    }
  }

  // --- what an outcome says about the log ----------------------------------------

  /** The line is a report of this phase and outcome about this test. */
  predicate Reports(json: Json, line: Text, nodeid: string, phase: string, outcome: string) {
    match json(line)
    case None => false
    case Some(r) => r.nodeid == nodeid && r.phase == phase && r.outcome == outcome
  }

  lemma {:induction false} VerdictOfLine(json: Json, lines: seq<Text>, k: nat) returns (i: nat)
    requires k < |lines| && ParseReportLogLine(json, lines[k]).Some?
    ensures i < |VerdictsIn(json, lines)| && VerdictsIn(json, lines)[i] == ParseReportLogLine(json, lines[k]).value
  {
    if k == |lines| - 1 {
      i := |VerdictsIn(json, lines)| - 1;
    } else {
      i := VerdictOfLine(json, lines[..|lines| - 1], k);
    }
  }

  lemma {:induction false} LineOfVerdict(json: Json, lines: seq<Text>, i: nat) returns (k: nat)
    requires i < |VerdictsIn(json, lines)|
    ensures k < |lines| && ParseReportLogLine(json, lines[k]) == Some(VerdictsIn(json, lines)[i])
  {
    var before := lines[..|lines| - 1];
    if i < |VerdictsIn(json, before)| {
      k := LineOfVerdict(json, before, i);
    } else {
      k := |lines| - 1;
    }
  }

  lemma {:induction false} AboutHasIt(events: seq<Verdict>, i: nat) returns (j: nat)
    requires i < |events|
    ensures j < |About(events, events[i].nodeid)| && About(events, events[i].nodeid)[j] == events[i]
  {
    if i == |events| - 1 {
      j := |About(events, events[i].nodeid)| - 1;
    } else {
      j := AboutHasIt(events[..|events| - 1], i);
    }
  }

  /** An entry's outcome is the worst among the verdicts about its test. */
  lemma {:induction false} EntryIsWorst(events: seq<Verdict>, e: nat) returns (i: nat)
    requires e < |Fold([], events)|
    ensures var entry := Fold([], events)[e];
            && i < |events| && events[i].nodeid == entry.nodeid && events[i].outcome == entry.outcome
            && forall k :: 0 <= k < |events| && events[k].nodeid == entry.nodeid ==>
                 Severity(events[k].outcome) <= Severity(entry.outcome)
  {
    hide Fold, Severity, OnePerTest, InFirstOrder, Mentions, WorseningTime, WorseningMessage;
    FoldTabulates(events);
    var entry := Fold([], events)[e];
    var h := About(events, entry.nodeid);
    assert Summarizes(entry, h);
    hide Tabulates, About;
    var j :| 0 <= j < |h| && entry.outcome == h[j].outcome;
    assert h[j] in events;
    i :| 0 <= i < |events| && events[i] == h[j];
    forall k | 0 <= k < |events| && events[k].nodeid == entry.nodeid
      ensures Severity(events[k].outcome) <= Severity(entry.outcome)
    {
      var at := AboutHasIt(events, k);
    }
  }

  lemma {:induction false} HasEntry(events: seq<Verdict>, i: nat) returns (e: nat)
    requires i < |events|
    ensures e < |Fold([], events)| && Fold([], events)[e].nodeid == events[i].nodeid
  {
    FoldTabulates(events);
    assert Mentions(Fold([], events), events[i].nodeid);
    e :| 0 <= e < |Fold([], events)| && Fold([], events)[e].nodeid == events[i].nodeid;
  }

  /** No failure is lost, whichever phase it happened in and whatever the other
      phases reported: the test has an entry, which is an error if setup or teardown
      failed, and at least a failure if the call did. */
  lemma {:induction false} FailureIsNeverLost(json: Json, lines: seq<Text>, k: nat, nodeid: string, phase: string)
    returns (e: nat)
    requires k < |lines| && Reports(json, lines[k], nodeid, phase, "failed")
    requires phase == "setup" || phase == "call" || phase == "teardown"
    ensures var tests := Fold([], VerdictsIn(json, lines));
            && e < |tests| && tests[e].nodeid == nodeid
            && (tests[e].outcome == Errored || (phase == "call" && tests[e].outcome == Failed))
  {
    var events := VerdictsIn(json, lines);
    var i := VerdictOfLine(json, lines, k);
    e := HasEntry(events, i);
    var worst := EntryIsWorst(events, e);
  }

  /** A report that does not speak against the test: a passed call or setup, or a
      teardown that did not fail, or a phase of no interest. */
  predicate Harmless(r: Report) {
    && (r.phase == "call" || r.phase == "setup" ==> r.outcome == "passed")
    && (r.phase == "teardown" ==> r.outcome != "failed")
  }

  predicate AllHarmless(json: Json, lines: seq<Text>, nodeid: string) {
    forall k :: 0 <= k < |lines| && json(lines[k]).Some? && json(lines[k]).value.nodeid == nodeid ==>
      Harmless(json(lines[k]).value)
  }

  predicate CallPassed(json: Json, lines: seq<Text>, nodeid: string) {
    exists k :: 0 <= k < |lines| && Reports(json, lines[k], nodeid, "call", "passed")
  }

  lemma HarmlessIffNothingWorse(json: Json, line: Text)
    requires json(line).Some?
    ensures var v := ParseReportLogLine(json, line);
            && (Harmless(json(line).value) <==> v.None? || v.value.outcome == Passed)
            && (v.Some? ==> v.value.nodeid == json(line).value.nodeid)
            && (Reports(json, line, json(line).value.nodeid, "call", "passed")
                <==> v.Some? && v.value.outcome == Passed)
  {
  }

  lemma PassedIsBest(outcome: Outcome)
    ensures Severity(outcome) <= Severity(Passed) <==> outcome == Passed
  {
  }

  /** An entry says passed exactly when no report about its test speaks against it. */
  lemma {:induction false} EntryPassedIff(json: Json, lines: seq<Text>, e: nat)
    requires e < |Fold([], VerdictsIn(json, lines))|
    ensures var entry := Fold([], VerdictsIn(json, lines))[e];
            entry.outcome == Passed <==> AllHarmless(json, lines, entry.nodeid) && CallPassed(json, lines, entry.nodeid)
  {
    hide Fold, VerdictsIn, ParseReportLogLine, Reports, Harmless, Severity;
    var events := VerdictsIn(json, lines);
    var entry := Fold([], events)[e];
    var i := EntryIsWorst(events, e);
    var source := LineOfVerdict(json, lines, i);
    LineHasReport(json, lines[source]);
    HarmlessIffNothingWorse(json, lines[source]);
    if entry.outcome == Passed {
      forall k | 0 <= k < |lines| && json(lines[k]).Some? && json(lines[k]).value.nodeid == entry.nodeid
        ensures Harmless(json(lines[k]).value)
      {
        HarmlessIffNothingWorse(json, lines[k]);
        if ParseReportLogLine(json, lines[k]).Some? {
          var at := VerdictOfLine(json, lines, k);
          PassedIsBest(events[at].outcome);
        }
      }
    }
  }

  lemma LineHasReport(json: Json, line: Text)
    ensures ParseReportLogLine(json, line).Some? ==> json(line).Some?
  {
  }

  /** A test is listed as passed exactly when its call passed and no report about
      it, of any phase, speaks against it. */
  lemma {:induction false} PassedIff(json: Json, lines: seq<Text>, nodeid: string)
    ensures (exists e :: 0 <= e < |Fold([], VerdictsIn(json, lines))|
                         && Fold([], VerdictsIn(json, lines))[e].nodeid == nodeid
                         && Fold([], VerdictsIn(json, lines))[e].outcome == Passed)
       <==> AllHarmless(json, lines, nodeid) && CallPassed(json, lines, nodeid)
  {
    hide Fold, VerdictsIn, ParseReportLogLine, AllHarmless;
    var events := VerdictsIn(json, lines);
    if e :| 0 <= e < |Fold([], events)| && Fold([], events)[e].nodeid == nodeid
            && Fold([], events)[e].outcome == Passed {
      EntryPassedIff(json, lines, e);
    }
    if AllHarmless(json, lines, nodeid) && CallPassed(json, lines, nodeid) {
      var k :| 0 <= k < |lines| && Reports(json, lines[k], nodeid, "call", "passed");
      HarmlessIffNothingWorse(json, lines[k]);
      var i := VerdictOfLine(json, lines, k);
      var e := HasEntry(events, i);
      EntryPassedIff(json, lines, e);
    }
  }

  // --- the entries, from the reports as they stand in the log ----------------------

  /** What a report says about its test, by the texts of its phase and outcome. */
  predicate Says(r: Report, outcome: Outcome) {
    match outcome
    case Passed => r.phase == "call" && r.outcome == "passed"
    case Skipped => (r.phase == "call" || r.phase == "setup") && r.outcome == "skipped"
    case Failed => r.phase == "call" && r.outcome == "failed"
    case Errored =>
      || (r.phase == "call" && r.outcome !in {"passed", "failed", "skipped"})
      || (r.phase == "setup" && r.outcome !in {"passed", "skipped"})
      || (r.phase == "teardown" && r.outcome == "failed")
  }

  predicate SaysNothing(r: Report) {
    !Says(r, Passed) && !Says(r, Skipped) && !Says(r, Failed) && !Says(r, Errored)
  }

  /** A line is taken for what its report says, with its test, time, markers and, unless
      it says passed, its message. */
  lemma LineSays(json: Json, line: Text, outcome: Outcome)
    ensures var v := ParseReportLogLine(json, line);
            && (v.None? <==> json(line).None? || SaysNothing(json(line).value))
            && (v.Some? ==>
                  var r := json(line).value;
                  && (v.value.outcome == outcome <==> Says(r, outcome))
                  && v.value.nodeid == r.nodeid && v.value.duration == r.duration && v.value.markers == r.markers
                  && v.value.message == if Says(r, Passed) then None else r.longMessage)
  {
  }

  /** Some report about the test says this. */
  predicate Told(json: Json, lines: seq<Text>, nodeid: string, outcome: Outcome) {
    exists k :: 0 <= k < |lines| && TellsOf(json, lines[k], nodeid, outcome)
  }

  predicate TellsOf(json: Json, line: Text, nodeid: string, outcome: Outcome) {
    json(line).Some? && json(line).value.nodeid == nodeid && Says(json(line).value, outcome)
  }

  predicate ListedAs(tests: seq<Verdict>, nodeid: string, outcome: Outcome) {
    exists e :: 0 <= e < |tests| && tests[e].nodeid == nodeid && tests[e].outcome == outcome
  }

  lemma {:induction false} ToldOfEntry(json: Json, lines: seq<Text>, e: nat)
    requires e < |Fold([], VerdictsIn(json, lines))|
    ensures var entry := Fold([], VerdictsIn(json, lines))[e];
            Told(json, lines, entry.nodeid, entry.outcome)
  {
    hide Fold, VerdictsIn, ParseReportLogLine, Says;
    var events := VerdictsIn(json, lines);
    var i := EntryIsWorst(events, e);
    var k := LineOfVerdict(json, lines, i);
    LineSays(json, lines[k], events[i].outcome);
    assert TellsOf(json, lines[k], events[i].nodeid, events[i].outcome);
  }

  /** What was told about a test is in its entry, or something worse is. */
  lemma {:induction false} ToldIsListed(json: Json, lines: seq<Text>, nodeid: string, outcome: Outcome) returns (e: nat)
    requires Told(json, lines, nodeid, outcome)
    ensures var tests := Fold([], VerdictsIn(json, lines));
            e < |tests| && tests[e].nodeid == nodeid && Severity(outcome) <= Severity(tests[e].outcome)
  {
    hide Fold, VerdictsIn, ParseReportLogLine, Says;
    var k :| 0 <= k < |lines| && TellsOf(json, lines[k], nodeid, outcome);
    LineSays(json, lines[k], outcome);
    SaysSomething(json(lines[k]).value, outcome);
    var i := VerdictOfLine(json, lines, k);
    e := HasEntry(VerdictsIn(json, lines), i);
    var worst := EntryIsWorst(VerdictsIn(json, lines), e);
  }

  lemma SaysSomething(r: Report, outcome: Outcome)
    requires Says(r, outcome)
    ensures !SaysNothing(r)
  {
  }

  lemma {:induction false} OneEntryEach(events: seq<Verdict>, d: nat, e: nat)
    requires d < |Fold([], events)| && e < |Fold([], events)|
    requires Fold([], events)[d].nodeid == Fold([], events)[e].nodeid
    ensures d == e
  {
    FoldTabulates(events);
  }

  /** A test is an error exactly when some report about it says so; a failure exactly
      when one says that and none says error; skipped exactly when one says that and
      none says failure or error; passed exactly when one says that and none says
      anything else. */
  lemma {:induction false} ListedIff(json: Json, lines: seq<Text>, nodeid: string, outcome: Outcome)
    ensures ListedAs(Fold([], VerdictsIn(json, lines)), nodeid, outcome)
       <==> Told(json, lines, nodeid, outcome)
            && (outcome != Errored ==> !Told(json, lines, nodeid, Errored))
            && (outcome == Skipped || outcome == Passed ==> !Told(json, lines, nodeid, Failed))
            && (outcome == Passed ==> !Told(json, lines, nodeid, Skipped))
  {
    hide Fold, VerdictsIn, Told;
    var events := VerdictsIn(json, lines);
    if e :| 0 <= e < |Fold([], events)| && Fold([], events)[e].nodeid == nodeid
            && Fold([], events)[e].outcome == outcome {
      ToldOfEntry(json, lines, e);
      forall o: Outcome | Told(json, lines, nodeid, o) ensures Severity(o) <= Severity(outcome) {
        var d := ToldIsListed(json, lines, nodeid, o);
        OneEntryEach(events, d, e);
      }
    }
    if Told(json, lines, nodeid, outcome) {
      var e := ToldIsListed(json, lines, nodeid, outcome);
      ToldOfEntry(json, lines, e);
    }
  }

  /** The reports that say something about a test, in order. */
  function ReportsOf(json: Json, lines: seq<Text>, nodeid: string): seq<Report> {
    if lines == [] then []
    else
      var before, last := ReportsOf(json, lines[..|lines| - 1], nodeid), json(lines[|lines| - 1]);
      if last.Some? && last.value.nodeid == nodeid && !SaysNothing(last.value) then before + [last.value] else before
  }

  function Rank(r: Report): nat {
    if Says(r, Errored) then 3 else if Says(r, Failed) then 2 else if Says(r, Skipped) then 1 else 0
  }

  /** The time of the reports that say something worse than all before them. */
  function TimeOfWorse(h: seq<Report>): real {
    if h == [] then 0.0
    else
      var last := |h| - 1;
      TimeOfWorse(h[..last])
      + if forall j :: 0 <= j < last ==> Rank(h[j]) < Rank(h[last]) then h[last].duration else 0.0
  }

  ghost predicate Matches(h: seq<Verdict>, raw: seq<Report>) {
    |h| == |raw| && forall i :: 0 <= i < |h| ==> MatchesOne(h[i], raw[i])
  }

  ghost predicate MatchesOne(v: Verdict, r: Report) {
    && v.duration == r.duration && v.markers == r.markers && Severity(v.outcome) == Rank(r) && Says(r, v.outcome)
    && v.message == if Says(r, Passed) then None else r.longMessage
  }

  lemma LineMatches(json: Json, line: Text)
    requires ParseReportLogLine(json, line).Some?
    ensures MatchesOne(ParseReportLogLine(json, line).value, json(line).value)
  {
  }

  lemma {:induction false} HistoryMatches(json: Json, lines: seq<Text>, nodeid: string)
    ensures Matches(About(VerdictsIn(json, lines), nodeid), ReportsOf(json, lines, nodeid))
  {
    if lines != [] {
      var before, line := lines[..|lines| - 1], lines[|lines| - 1];
      HistoryMatches(json, before, nodeid);
      LineSays(json, line, Passed);
      if ParseReportLogLine(json, line).Some? {
        LineMatches(json, line);
        OneMore(VerdictsIn(json, before), ParseReportLogLine(json, line).value, nodeid);
      }
      hide ParseReportLogLine, Says, SaysNothing, MatchesOne, About;
    }
  }

  lemma {:induction false} TimeMatches(h: seq<Verdict>, raw: seq<Report>)
    requires Matches(h, raw)
    ensures WorseningTime(h) == TimeOfWorse(raw)
  {
    hide Says, Rank;
    if h != [] { TimeMatches(h[..|h| - 1], raw[..|raw| - 1]); }
  }

  /** Behind the worst verdict no message takes over any more. */
  lemma {:induction false} MessageOfWorst(h: seq<Verdict>, i: nat)
    requires i < |h| && OwnMessage(h[i])
    requires forall j :: 0 <= j < i ==> Severity(h[j].outcome) < Severity(h[i].outcome)
    requires forall j :: 0 <= j < |h| ==> Severity(h[j].outcome) <= Severity(h[i].outcome)
    ensures WorseningMessage(h) == h[i].message
  {
    var last := |h| - 1;
    if i < last {
      assert !Worsening(h, last);
      MessageOfWorst(h[..last], i);
    } else {
      assert Worsening(h, last);
    }
  }

  /** An entry in terms of the reports about its test: the markers of the first one, the
      time of those that say something worse than all before them, and the message, if
      it has one, of the first one that says the outcome. */
  lemma {:induction false} EntryShows(json: Json, lines: seq<Text>, e: nat) returns (i: nat)
    requires e < |Fold([], VerdictsIn(json, lines))|
    ensures var entry := Fold([], VerdictsIn(json, lines))[e];
            var h := ReportsOf(json, lines, entry.nodeid);
            && i < |h| && Says(h[i], entry.outcome) && (forall j :: 0 <= j < i ==> !Says(h[j], entry.outcome))
            && entry.markers == h[0].markers && entry.duration == TimeOfWorse(h)
            && (entry.outcome != Passed && h[i].longMessage.Some? && h[i].longMessage.value != "" ==>
                  entry.message == h[i].longMessage)
  {
    var events := VerdictsIn(json, lines);
    FoldTabulates(events);
    var entry := Fold([], events)[e];
    var h, raw := About(events, entry.nodeid), ReportsOf(json, lines, entry.nodeid);
    assert Summarizes(entry, h);
    HistoryMatches(json, lines, entry.nodeid);
    TimeMatches(h, raw);
    hide Fold, Tabulates, VerdictsIn, About, ReportsOf, WorseningTime, TimeOfWorse;
    i := FirstOf(entry, h, raw);
  }

  /** The first report that says what its entry says. */
  lemma {:induction false} FirstOf(entry: Verdict, h: seq<Verdict>, raw: seq<Report>) returns (i: nat)
    requires Matches(h, raw) && Summarizes(entry, h)
    ensures i < |raw| && Says(raw[i], entry.outcome) && (forall j :: 0 <= j < i ==> !Says(raw[j], entry.outcome))
    ensures entry.markers == raw[0].markers
    ensures entry.outcome != Passed && raw[i].longMessage.Some? && raw[i].longMessage.value != "" ==>
              entry.message == raw[i].longMessage
  {
    i := FirstWith(h, entry.outcome);
    assert MatchesOne(h[0], raw[0]) && MatchesOne(h[i], raw[i]);
    hide WorseningTime, WorseningMessage;
    forall j | 0 <= j < i ensures !Says(raw[j], entry.outcome) && Severity(h[j].outcome) < Severity(entry.outcome) {
      assert MatchesOne(h[j], raw[j]);
      SaysOneThing(raw[j], h[j].outcome, entry.outcome);
      SeverityTells(h[j].outcome, entry.outcome);
    }
    SaysOneThing(raw[i], entry.outcome, Passed);
    if OwnMessage(h[i]) { MessageOfWorst(h, i); }
  }

  lemma {:induction false} FirstWith(h: seq<Verdict>, outcome: Outcome) returns (i: nat)
    requires exists i :: 0 <= i < |h| && outcome == h[i].outcome
    ensures i < |h| && h[i].outcome == outcome && forall j :: 0 <= j < i ==> h[j].outcome != outcome
  {
    var last := |h| - 1;
    if exists j :: 0 <= j < last && outcome == h[j].outcome {
      var j :| 0 <= j < last && outcome == h[j].outcome;
      assert h[..last][j].outcome == outcome;
      i := FirstWith(h[..last], outcome);
    } else {
      i := last;
    }
  }

  lemma SaysOneThing(r: Report, a: Outcome, b: Outcome)
    ensures Says(r, a) && Says(r, b) ==> a == b
  {
  }

  lemma SeverityTells(a: Outcome, b: Outcome)
    ensures Severity(a) == Severity(b) <==> a == b
  {
  }

  // --- counts --------------------------------------------------------------

  function Count(tests: seq<Verdict>, outcome: Outcome): nat {
    if tests == [] then 0
    else Count(tests[..|tests| - 1], outcome) + if tests[|tests| - 1].outcome == outcome then 1 else 0
  }

  /** A count is the number of entries of that outcome. */
  lemma {:induction false} CountIsNumber(tests: seq<Verdict>, outcome: Outcome)
    ensures Count(tests, outcome) == |set i | 0 <= i < |tests| && tests[i].outcome == outcome|
  {
    if tests != [] {
      var before, k := tests[..|tests| - 1], |tests| - 1;
      CountIsNumber(before, outcome);
      var all := set i | 0 <= i < |tests| && tests[i].outcome == outcome;
      assert all - {k} == set i | 0 <= i < |before| && before[i].outcome == outcome;
    }
  }

  /** passed + failed + errored + skipped is the total. */
  lemma {:induction false} CountsSumToTotal(tests: seq<Verdict>)
    ensures Count(tests, Passed) + Count(tests, Failed) + Count(tests, Errored) + Count(tests, Skipped) == |tests|
  {
    if tests != [] {
      CountsSumToTotal(tests[..|tests| - 1]);
    }
  }
}
