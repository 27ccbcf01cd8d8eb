/**
 The packet-event log between the pytest subprocess and its parent: any number of
 writer threads serialized by the writer's lock, bytes that land in the file in
 arbitrary pieces, and a poller that reads whatever is there.

 A step is one critical section, one piece of a flush, or one poll, so a schedule
 is one interleaving of all of them.
 */
module LogPipeline {
  import opened Basics
  import opened Lines
  import opened Models

  /** JSON as this pipeline needs it: an event becomes one line of printable ASCII,
      and a line that is not an event decodes to nothing. */
  datatype Codec = Codec(encode: PacketEvent -> Bytes, decode: Text -> Option<PacketEvent>)

  predicate Printable(data: Bytes) {
    data != [] && (forall i :: 0 <= i < |data| ==> 0x20 <= data[i] <= 0x7E) && data[0] != 0x20
  }

  /** The codec carries these events. It need not carry every event there could
      be: a finite text cannot hold an arbitrary real timestamp. */
  ghost predicate Faithful(codec: Codec, events: seq<PacketEvent>) {
    forall e :: e in events ==> Printable(codec.encode(e)) && codec.decode(codec.encode(e)) == Some(e)
  }

  /** Whatever events a run writes, some codec carries them: one that numbers them. */
  lemma {:induction false} SomeCodecIsFaithful(events: seq<PacketEvent>) returns (codec: Codec)
    ensures Faithful(codec, events)
  {
    codec := Codec(e => Tally(Position(events, e) + 1),
                   t => if 0 < |t| <= |events| then Some(events[|t| - 1]) else None);
    forall e | e in events ensures Printable(codec.encode(e)) && codec.decode(codec.encode(e)) == Some(e) {
      assert |codec.encode(e)| == Position(events, e) + 1;
    }
  }

  function Tally(n: nat): (data: Bytes)
    ensures |data| == n
  {
    seq(n, _ => 0x31)
  }

  function Position(events: seq<PacketEvent>, e: PacketEvent): (n: nat)
    ensures e in events ==> n < |events| && events[n] == e
  {
    if events == [] || events[0] == e then 0 else 1 + Position(events[1..], e)
  }

  function Line(codec: Codec, e: PacketEvent): Bytes {
    codec.encode(e) + [LF]
  }

  function LogBytes(codec: Codec, log: seq<PacketEvent>): Bytes {
    if log == [] then []
    else LogBytes(codec, log[..|log| - 1]) + Line(codec, log[|log| - 1])
  }

  /** The parse loop of `drain_packet_events`: undecodable lines are skipped. */
  function Parse(codec: Codec, lines: seq<Text>): seq<PacketEvent> {
    if lines == [] then []
    else
      var rest := Parse(codec, lines[1..]);
      match codec.decode(lines[0])
      case Some(e) => [e] + rest
      case None => rest
  }

  /** `accepted` are the events written under the lock so far, in lock order;
      `pending` are the bytes of the latest one that have not landed yet. */
  datatype State = State(
    accepted: seq<PacketEvent>, writing: bool, pending: Bytes, file: Option<Bytes>, closed: bool,
    offset: nat, packetEvents: seq<PacketEvent>)

  datatype Action =
    | Open                        // the writer opens its file for appending
    | Write(event: PacketEvent)   // some thread enters the critical section
    | Land(count: nat)            // some bytes of the write reach the file
    | Release                     // flushed; the thread leaves the critical section
    | Close                       // close() under the lock
    | Poll                        // drain_packet_events in the parent

  predicate Enabled(s: State, a: Action) {
    match a
    case Open => s.file.None?
    case Write(_) => s.file.Some? && !s.writing
    case Land(count) => s.file.Some? && 0 < count <= |s.pending|
    case Release => s.writing && s.pending == []
    case Close => !s.writing && s.file.Some?
    case Poll => true
  }

  function Apply(codec: Codec, s: State, a: Action): State
    requires Enabled(s, a)
  {
    match a
    case Open => s.(file := Some([]))
    case Write(event) =>
      if s.closed then s  // dropped: the run has ended
      else s.(accepted := s.accepted + [event], writing := true, pending := Line(codec, event))
    case Land(count) =>
      s.(file := Some(s.file.value + s.pending[..count]), pending := s.pending[count..])
    case Release => s.(writing := false)
    case Close => s.(closed := true)
    case Poll =>
      var (lines, next) := ReadNewLines(s.file, s.offset);
      s.(offset := next, packetEvents := s.packetEvents + Parse(codec, lines))
  }

  const START := State([], false, [], None, false, 0, [])

  predicate Runs(codec: Codec, s: State, schedule: seq<Action>)
    decreases |schedule|
  {
    schedule == [] || (Enabled(s, schedule[0]) && Runs(codec, Apply(codec, s, schedule[0]), schedule[1..]))
  }

  function Run(codec: Codec, s: State, schedule: seq<Action>): State
    requires Runs(codec, s, schedule)
    decreases |schedule|
  {
    if schedule == [] then s else Run(codec, Apply(codec, s, schedule[0]), schedule[1..])
  }

  // --- The invariant ---------------------------------------------------------

  /** Landed and pending bytes are the accepted events in lock order, and the
      poller holds the events of the complete lines before its offset. */
  ghost predicate Inv(codec: Codec, s: State) {
    && Content(s.file) + s.pending == LogBytes(codec, s.accepted)
    && (s.pending != [] ==> s.writing && s.file.Some?)
    && s.offset <= |Content(s.file)| && WholeLines(Content(s.file)[..s.offset])
    && s.packetEvents == Parse(codec, LinesOf(Content(s.file)[..s.offset]))
  }

  lemma {:induction false} ParseDistributes(codec: Codec, a: seq<Text>, b: seq<Text>)
    ensures Parse(codec, a + b) == Parse(codec, a) + Parse(codec, b)
  {
    if a == [] {
      assert a + b == b;
    } else {
      assert (a + b)[0] == a[0] && (a + b)[1..] == a[1..] + b;
      ParseDistributes(codec, a[1..], b);
    }
  }

  lemma {:induction false} PollKeepsInv(codec: Codec, s: State)
    requires Inv(codec, s)
    ensures Inv(codec, Apply(codec, s, Poll))
    ensures Apply(codec, s, Poll).offset == CompleteLength(Content(s.file))
  {
    hide LinesOf, Parse, LogBytes, CompleteLength, ReadNewLines;
    var seen := LinesOf(Content(s.file)[..s.offset]);
    PollCatchesUp(s.file, s.offset, seen);
    ParseDistributes(codec, seen, ReadNewLines(s.file, s.offset).0);
  }

  lemma {:induction false} WriteKeepsInv(codec: Codec, s: State, event: PacketEvent)
    requires Inv(codec, s) && Enabled(s, Write(event))
    ensures Inv(codec, Apply(codec, s, Write(event)))
  {
    hide LinesOf, Parse;
    var t := Apply(codec, s, Write(event));
    if !s.closed {
      assert t.accepted[..|t.accepted| - 1] == s.accepted;
      assert Content(s.file) + [] == Content(s.file);
    }
  }

  lemma {:induction false} LandKeepsInv(codec: Codec, s: State, count: nat)
    requires Inv(codec, s) && Enabled(s, Land(count))
    ensures Inv(codec, Apply(codec, s, Land(count)))
  {
    hide LinesOf, Parse, LogBytes;
    var t := Apply(codec, s, Land(count));
    assert (s.file.value + s.pending[..count]) + s.pending[count..] == s.file.value + s.pending;
    assert Content(t.file)[..s.offset] == Content(s.file)[..s.offset];
  }

  lemma {:induction false} StepKeepsInv(codec: Codec, s: State, a: Action)
    requires Inv(codec, s) && Enabled(s, a)
    ensures Inv(codec, Apply(codec, s, a))
  {
    match a
    case Poll => PollKeepsInv(codec, s);
    case Write(event) => WriteKeepsInv(codec, s, event);
    case Land(count) => LandKeepsInv(codec, s, count);
    case Open =>
    case Release =>
    case Close =>
  }

  lemma {:induction false} RunKeepsInv(codec: Codec, s: State, schedule: seq<Action>)
    requires Inv(codec, s) && Runs(codec, s, schedule)
    ensures Inv(codec, Run(codec, s, schedule))
    decreases |schedule|
  {
    if schedule != [] {
      StepKeepsInv(codec, s, schedule[0]);
      RunKeepsInv(codec, Apply(codec, s, schedule[0]), schedule[1..]);
    }
  }

  // --- Reading back what was written -------------------------------------------

  /** Printable ASCII decodes to itself, and a line of it is one line. */
  lemma {:induction false} DecodePrintable(data: Bytes)
    requires forall i :: 0 <= i < |data| ==> data[i] < 0x80
    ensures Decode(data) == data
  {
    if data != [] {
      assert Extent(data, 1) == 1;
      DecodePrintable(data[1..]);
      assert data == [data[0]] + data[1..];
    }
  }

  lemma {:induction false} OneLine(codec: Codec, e: PacketEvent)
    requires Faithful(codec, [e])
    ensures LinesOf(Line(codec, e)) == [codec.encode(e)]
  {
    assert e in [e];
    var data := codec.encode(e);
    assert Printable(data);
    DecodePrintable(Line(codec, e));
    SingleLine(data);
  }

  lemma {:induction false} LogReadsBack(codec: Codec, log: seq<PacketEvent>)
    requires Faithful(codec, log)
    ensures WholeLines(LogBytes(codec, log))
    ensures Parse(codec, LinesOf(LogBytes(codec, log))) == log
  {
    hide *;
    if log != [] {
      var before := log[..|log| - 1];
      var e := log[|log| - 1];
      var text: Text := codec.encode(e);
      LastLine(codec, log);
      OneEventLine(codec, log);
      LogReadsBack(codec, before);
      LinesDistribute(LogBytes(codec, before), Line(codec, e));
      BothAreWhole(LogBytes(codec, before), Line(codec, e));
      ParseDistributes(codec, LinesOf(LogBytes(codec, before)), [text]);
      LastApart(log);
    } else {
      NothingInEmpty(codec);
    }
  }

  lemma LastLine(codec: Codec, log: seq<PacketEvent>)
    requires log != []
    ensures LogBytes(codec, log) == LogBytes(codec, log[..|log| - 1]) + Line(codec, log[|log| - 1])
  {
    hide Line;
  }

  lemma NothingInEmpty(codec: Codec)
    ensures LogBytes(codec, []) == [] && WholeLines([]) && Parse(codec, LinesOf([])) == []
  {
  }

  lemma BothAreWhole(a: Bytes, b: Bytes)
    requires WholeLines(b) && b != []
    ensures WholeLines(a + b)
  {
  }

  lemma {:induction false} OneEventLine(codec: Codec, log: seq<PacketEvent>)
    requires Faithful(codec, log) && log != []
    ensures var e := log[|log| - 1]; var text: Text := codec.encode(e);
            && Faithful(codec, log[..|log| - 1])
            && LinesOf(Line(codec, e)) == [text] && Parse(codec, [text]) == [e]
            && WholeLines(Line(codec, e)) && Line(codec, e) != []
  {
    var e := log[|log| - 1];
    var text: Text := codec.encode(e);
    OneLine(codec, e);
    hide LinesOf;
    assert Parse(codec, [text]) == [e] + Parse(codec, []);
  }

  /** Whole lines at the front of the log are the first few events. */
  lemma {:induction false} FrontOfLog(codec: Codec, log: seq<PacketEvent>, front: Bytes) returns (m: nat)
    requires Faithful(codec, log) && front <= LogBytes(codec, log) && WholeLines(front)
    ensures m <= |log| && front == LogBytes(codec, log[..m])
  {
    if log == [] || front == LogBytes(codec, log) {
      m := |log|;
      assert log[..m] == log;
    } else {
      var before := log[..|log| - 1];
      var e := log[|log| - 1];
      var prefix := LogBytes(codec, before);
      assert Printable(codec.encode(e));
      assert forall i :: |prefix| <= i < |prefix| + |codec.encode(e)| ==> LogBytes(codec, log)[i] != LF;
      assert front <= prefix;
      m := FrontOfLog(codec, before, front);
      assert before[..m] == log[..m];
    }
  }

  // --- Safety over whole runs ----------------------------------------------

  /** At every moment of every interleaving the poller holds a prefix of the
      events in lock order: none lost before another, none split, none twice. */
  lemma {:induction false} PollerSeesPrefix(codec: Codec, schedule: seq<Action>)
    requires Runs(codec, START, schedule) && Faithful(codec, Run(codec, START, schedule).accepted)
    ensures var t := Run(codec, START, schedule);
            t.packetEvents <= t.accepted
            && t.offset <= |Content(t.file)|
            && Content(t.file)[..t.offset] == LogBytes(codec, t.packetEvents)
  {
    assert LinesOf([]) == [];
    RunKeepsInv(codec, START, schedule);
    var t := Run(codec, START, schedule);
    var front := Content(t.file)[..t.offset];
    assert front <= Content(t.file) + t.pending;
    var m := FrontOfLog(codec, t.accepted, front);
    LogReadsBack(codec, t.accepted[..m]);
  }

  /** A poll taken when no write is half-landed holds every event accepted so far. */
  lemma {:induction false} QuietPollIsComplete(codec: Codec, s: State)
    requires Faithful(codec, s.accepted) && Inv(codec, s) && s.pending == []
    ensures Apply(codec, s, Poll).packetEvents == s.accepted
  {
    hide LinesOf, Parse, LogBytes, CompleteLength, ReadNewLines;
    var data := Content(s.file);
    PollKeepsInv(codec, s);
    LogReadsBack(codec, s.accepted);
    assert data + [] == data && data[..|data|] == data;
    CompleteIs(data, |data|);
  }

  /** Nothing is accepted, and nothing lands, once the writer is closed. */
  lemma {:induction false} ClosedStaysQuiet(codec: Codec, s: State, schedule: seq<Action>)
    requires s.closed && s.pending == [] && Runs(codec, s, schedule)
    ensures var t := Run(codec, s, schedule); t.pending == [] && t.accepted == s.accepted
    decreases |schedule|
  {
    if schedule != [] {
      ClosedStaysQuiet(codec, Apply(codec, s, schedule[0]), schedule[1..]);
    }
  }

  /** Whatever happened before `close`, and whatever threads still try to write
      after it, a final drain holds exactly the events written before the close. */
  lemma {:induction false} CloseThenDrain(codec: Codec, before: seq<Action>, after: seq<Action>)
    requires Runs(codec, START, before) && Faithful(codec, Run(codec, START, before).accepted)
    requires Enabled(Run(codec, START, before), Close)
    requires Runs(codec, Apply(codec, Run(codec, START, before), Close), after)
    ensures var s := Run(codec, START, before);
            var t := Run(codec, Apply(codec, s, Close), after);
            Apply(codec, t, Poll).packetEvents == s.accepted
  {
    assert LinesOf([]) == [];
    RunKeepsInv(codec, START, before);
    var s := Run(codec, START, before);
    StepKeepsInv(codec, s, Close);
    var c := Apply(codec, s, Close);
    RunKeepsInv(codec, c, after);
    ClosedStaysQuiet(codec, c, after);
    QuietPollIsComplete(codec, Run(codec, c, after));
  }
}
