/**
 The live metrics buffer: running totals and five bounded windows, kept up to date
 event by event, against a recount of the whole history.
 */
module Metrics {
  import opened Basics
  import opened Models

  datatype Snapshot = Snapshot(elapsed: seq<real>, sent: seq<nat>, received: seq<nat>,
                               bytesSent: seq<nat>, bytesReceived: seq<nat>)

  // --- the recount -------------------------------------------------------------

  function Packets(events: seq<PacketEvent>, direction: Direction): nat {
    if events == [] then 0
    else
      Packets(events[..|events| - 1], direction)
      + if events[|events| - 1].direction == direction then 1 else 0
  }

  function Octets(events: seq<PacketEvent>, direction: Direction): nat {
    if events == [] then 0
    else
      var last := events[|events| - 1];
      Octets(events[..|events| - 1], direction) + if last.direction == direction then last.size else 0
  }

  /** The last `max` elements. */
  function Last<T>(s: seq<T>, max: nat): (r: seq<T>)
    ensures |r| == if |s| < max then |s| else max
  {
    if |s| <= max then s else s[|s| - max..]
  }

  /** `append` on a deque of bounded length. */
  function Push<T>(window: seq<T>, x: T, max: nat): seq<T> {
    Last(window + [x], max)
  }

  /** Every cumulative series, recomputed from the events so far. */
  function Recount(events: seq<PacketEvent>): Snapshot {
    Snapshot(
      seq(|events|, i requires 0 <= i < |events| => events[i].timestamp - events[0].timestamp),
      seq(|events|, i requires 0 <= i < |events| => Packets(events[..i + 1], Sent)),
      seq(|events|, i requires 0 <= i < |events| => Packets(events[..i + 1], Received)),
      seq(|events|, i requires 0 <= i < |events| => Octets(events[..i + 1], Sent)),
      seq(|events|, i requires 0 <= i < |events| => Octets(events[..i + 1], Received)))
  }

  function Window(all: Snapshot, max: nat): Snapshot {
    Snapshot(Last(all.elapsed, max), Last(all.sent, max), Last(all.received, max),
             Last(all.bytesSent, max), Last(all.bytesReceived, max))
  }

  lemma LastOfLast<T>(s: seq<T>, x: T, max: nat)
    ensures Last(Last(s, max) + [x], max) == Last(s + [x], max)
  {
  }

  /** One more event appends one entry to every series. */
  lemma {:induction false} RecountMore(events: seq<PacketEvent>, event: PacketEvent)
    ensures var more := events + [event]; var before, after := Recount(events), Recount(more);
            && after.elapsed == before.elapsed + [event.timestamp - more[0].timestamp]
            && after.sent == before.sent + [Packets(more, Sent)]
            && after.received == before.received + [Packets(more, Received)]
            && after.bytesSent == before.bytesSent + [Octets(more, Sent)]
            && after.bytesReceived == before.bytesReceived + [Octets(more, Received)]
  {
    var more := events + [event];
    assert more[..|events| + 1] == more;
    forall i | 0 <= i < |events|
      ensures Recount(more).sent[i] == Recount(events).sent[i]
      ensures Recount(more).received[i] == Recount(events).received[i]
      ensures Recount(more).bytesSent[i] == Recount(events).bytesSent[i]
      ensures Recount(more).bytesReceived[i] == Recount(events).bytesReceived[i]
    {
      assert more[..i + 1] == events[..i + 1];
    }
  }

  /** The window over one more event is the old window with one entry pushed. */
  lemma {:induction false} WindowMore(events: seq<PacketEvent>, event: PacketEvent, max: nat)
    ensures var more := events + [event];
            var before, after := Window(Recount(events), max), Window(Recount(more), max);
            && after.elapsed == Push(before.elapsed, event.timestamp - more[0].timestamp, max)
            && after.sent == Push(before.sent, Packets(more, Sent), max)
            && after.received == Push(before.received, Packets(more, Received), max)
            && after.bytesSent == Push(before.bytesSent, Octets(more, Sent), max)
            && after.bytesReceived == Push(before.bytesReceived, Octets(more, Received), max)
  {
    var more, all := events + [event], Recount(events);
    RecountMore(events, event);
    hide Recount, Last, Packets, Octets;
    LastOfLast(all.elapsed, event.timestamp - more[0].timestamp, max);
    LastOfLast(all.sent, Packets(more, Sent), max);
    LastOfLast(all.received, Packets(more, Received), max);
    LastOfLast(all.bytesSent, Octets(more, Sent), max);
    LastOfLast(all.bytesReceived, Octets(more, Received), max);
  }

  lemma CountsMore(events: seq<PacketEvent>, event: PacketEvent, direction: Direction)
    ensures Packets(events + [event], direction)
         == Packets(events, direction) + if event.direction == direction then 1 else 0
    ensures Octets(events + [event], direction)
         == Octets(events, direction) + if event.direction == direction then event.size else 0
  {
    assert (events + [event])[..|events|] == events;
  }

  // --- the buffer -----------------------------------------------------------------

  lemma NothingYet(max: nat)
    ensures Window(Recount([]), max) == Snapshot([], [], [], [], [])
    ensures Packets([], Sent) == Packets([], Received) == Octets([], Sent) == Octets([], Received) == 0
  {
  }

  class MetricsBuffer {
    const maxPoints: nat
    var startTime: Option<real>
    var sent: nat
    var received: nat
    var bytesSent: nat
    var bytesReceived: nat
    var elapsed: seq<real>
    var sentCum: seq<nat>
    var receivedCum: seq<nat>
    var bytesSentCum: seq<nat>
    var bytesReceivedCum: seq<nat>
    ghost var events: seq<PacketEvent>  // since the last clear

    constructor (maxPoints: nat)
      ensures this.maxPoints == maxPoints && events == [] && Valid()
    {
      NothingYet(maxPoints);
      hide Recount, Window, Packets, Octets;
      this.maxPoints := maxPoints;
      startTime, sent, received, bytesSent, bytesReceived := None, 0, 0, 0, 0;
      elapsed, sentCum, receivedCum, bytesSentCum, bytesReceivedCum := [], [], [], [], [];
      events := [];
    }

    function Now(): Snapshot
      reads this
    {
      Snapshot(elapsed, sentCum, receivedCum, bytesSentCum, bytesReceivedCum)
    }

    ghost predicate Valid()
      reads this
    {
      && Now() == Window(Recount(events), maxPoints)
      && sent == Packets(events, Sent) && received == Packets(events, Received)
      && bytesSent == Octets(events, Sent) && bytesReceived == Octets(events, Received)
      && startTime == if events == [] then None else Some(events[0].timestamp)
    }

    method Add(event: PacketEvent)
      requires Valid()
      modifies this
      ensures Valid() && events == old(events) + [event]
    {
      WindowMore(events, event, maxPoints);
      CountsMore(events, event, Sent);
      CountsMore(events, event, Received);
      hide Recount, Window, Push, Packets, Octets;
      CountIn(event);
      PushAll(event.timestamp - startTime.value);
      events := events + [event];
    }

    /** The running totals. */
    method CountIn(event: PacketEvent)
      modifies this`startTime, this`sent, this`received, this`bytesSent, this`bytesReceived
      ensures startTime == Some(if old(startTime).None? then event.timestamp else old(startTime.value))
      ensures sent == old(sent) + (if event.direction == Sent then 1 else 0)
      ensures received == old(received) + (if event.direction == Received then 1 else 0)
      ensures bytesSent == old(bytesSent) + (if event.direction == Sent then event.size else 0)
      ensures bytesReceived == old(bytesReceived) + (if event.direction == Received then event.size else 0)
    {
      if startTime.None? {
        startTime := Some(event.timestamp);
      }
      if event.direction == Sent {
        sent := sent + 1;
        bytesSent := bytesSent + event.size;
      } else {
        received := received + 1;
        bytesReceived := bytesReceived + event.size;
      }
    }

    /** An entry for every window. */
    method PushAll(time: real)
      modifies this`elapsed, this`sentCum, this`receivedCum, this`bytesSentCum, this`bytesReceivedCum
      ensures Now() == Snapshot(Push(old(elapsed), time, maxPoints), Push(old(sentCum), sent, maxPoints),
                                Push(old(receivedCum), received, maxPoints),
                                Push(old(bytesSentCum), bytesSent, maxPoints),
                                Push(old(bytesReceivedCum), bytesReceived, maxPoints))
    {
      hide Push;
      elapsed := Push(elapsed, time, maxPoints);
      sentCum := Push(sentCum, sent, maxPoints);
      receivedCum := Push(receivedCum, received, maxPoints);
      bytesSentCum := Push(bytesSentCum, bytesSent, maxPoints);
      bytesReceivedCum := Push(bytesReceivedCum, bytesReceived, maxPoints);
    }

    method TakeSnapshot() returns (s: Snapshot)
      requires Valid()
      ensures s == Window(Recount(events), maxPoints)
    {
      s := Now();
    }

    method Clear()
      requires Valid()
      modifies this
      ensures Valid() && events == []
    {
      NothingYet(maxPoints);
      hide Recount, Window, Packets, Octets;
      startTime, sent, received, bytesSent, bytesReceived := None, 0, 0, 0, 0;
      elapsed, sentCum, receivedCum, bytesSentCum, bytesReceivedCum := [], [], [], [], [];
      events := [];
    }
  }

  // --- runs ---------------------------------------------------------------------------

  datatype Op = Add(event: PacketEvent) | Clear

  /** The events since the last clear. */
  function Kept(ops: seq<Op>): seq<PacketEvent> {
    if ops == [] then []
    else
      match ops[|ops| - 1]
      case Add(event) => Kept(ops[..|ops| - 1]) + [event]
      case Clear => []
  }

  /** After any run of adds and clears, a snapshot is the tail of a recount of what
      was added since the last clear. */
  method Replay(maxPoints: nat, ops: seq<Op>) returns (s: Snapshot)
    ensures s == Window(Recount(Kept(ops)), maxPoints)
  {
    var buffer := new MetricsBuffer(maxPoints);
    hide Recount, Window;
    for i := 0 to |ops|
      invariant buffer.Valid() && fresh(buffer) && buffer.maxPoints == maxPoints && buffer.events == Kept(ops[..i])
    {
      assert ops[..i + 1][..i] == ops[..i];
      match ops[i] {
        case Add(event) => buffer.Add(event);
        case Clear => buffer.Clear();
      }
    }
    assert ops[..|ops|] == ops;
    s := buffer.TakeSnapshot();
  }

  // --- what the series look like ----------------------------------------------------------

  lemma {:induction false} CountsOfPrefix(events: seq<PacketEvent>, i: nat, j: nat, direction: Direction)
    requires i <= j <= |events|
    ensures Packets(events[..i], direction) <= Packets(events[..j], direction)
    ensures Octets(events[..i], direction) <= Octets(events[..j], direction)
    decreases j - i
  {
    if i < j {
      assert events[..j][..j - 1] == events[..j - 1];
      CountsOfPrefix(events, i, j - 1, direction);
    }
  }

  lemma {:induction false} EveryPacketCounts(events: seq<PacketEvent>)
    ensures Packets(events, Sent) + Packets(events, Received) == |events|
  {
    if events != [] { EveryPacketCounts(events[..|events| - 1]); }
  }

  ghost predicate NonDecreasing(s: seq<nat>) {
    forall i, j :: 0 <= i <= j < |s| ==> s[i] <= s[j]
  }

  lemma LastIsNonDecreasing(s: seq<nat>, max: nat)
    requires NonDecreasing(s)
    ensures NonDecreasing(Last(s, max))
  {
  }

  lemma {:induction false} SeriesNonDecreasing(events: seq<PacketEvent>)
    ensures var r := Recount(events);
            && NonDecreasing(r.sent) && NonDecreasing(r.received)
            && NonDecreasing(r.bytesSent) && NonDecreasing(r.bytesReceived)
  {
    var r := Recount(events);
    RecountLengths(events);
    forall i, j | 0 <= i <= j < |events|
      ensures r.sent[i] <= r.sent[j] && r.received[i] <= r.received[j]
      ensures r.bytesSent[i] <= r.bytesSent[j] && r.bytesReceived[i] <= r.bytesReceived[j]
    {
      EntriesInOrder(events, i, j);
    }
    hide Recount;
  }

  lemma EntriesInOrder(events: seq<PacketEvent>, i: nat, j: nat)
    requires i <= j < |events|
    ensures var r := Recount(events);
            && |r.sent| == |r.received| == |r.bytesSent| == |r.bytesReceived| == |events|
            && r.sent[i] <= r.sent[j] && r.received[i] <= r.received[j]
            && r.bytesSent[i] <= r.bytesSent[j] && r.bytesReceived[i] <= r.bytesReceived[j]
  {
    hide Packets, Octets;
    CountsOfPrefix(events, i + 1, j + 1, Sent);
    CountsOfPrefix(events, i + 1, j + 1, Received);
  }

  /** Every snapshot: five series of one length, which is the number of events up to
      the bound; the counts and byte counts never fall; and entry `i` belongs to
      event number `sent + received`, the window ending at the latest event. */
  lemma {:induction false} SnapshotShape(events: seq<PacketEvent>, max: nat)
    ensures var s := Window(Recount(events), max);
            var n := if |events| < max then |events| else max;
            && |s.elapsed| == |s.sent| == |s.received| == |s.bytesSent| == |s.bytesReceived| == n
            && NonDecreasing(s.sent) && NonDecreasing(s.received)
            && NonDecreasing(s.bytesSent) && NonDecreasing(s.bytesReceived)
            && (forall i :: 0 <= i < n ==> s.sent[i] + s.received[i] == |events| - n + i + 1)
            && (forall i :: 0 <= i < n ==> s.elapsed[i] == events[|events| - n + i].timestamp - events[0].timestamp)
  {
    var r := Recount(events);
    var s := Window(r, max);
    var n := if |events| < max then |events| else max;
    hide NonDecreasing, Packets, Octets, Last, Recount;
    SeriesNonDecreasing(events);
    LastIsNonDecreasing(r.sent, max);
    LastIsNonDecreasing(r.received, max);
    LastIsNonDecreasing(r.bytesSent, max);
    LastIsNonDecreasing(r.bytesReceived, max);
    RecountLengths(events);
    forall i | 0 <= i < n
      ensures s.sent[i] + s.received[i] == |events| - n + i + 1
      ensures s.elapsed[i] == events[|events| - n + i].timestamp - events[0].timestamp
    {
      EntryOfLast(r.sent, max, i);
      EntryOfLast(r.received, max, i);
      EntryOfLast(r.elapsed, max, i);
      EntryAt(events, |events| - n + i);
    }
  }

  lemma RecountLengths(events: seq<PacketEvent>)
    ensures var r := Recount(events);
            |r.elapsed| == |r.sent| == |r.received| == |r.bytesSent| == |r.bytesReceived| == |events|
  {
  }

  /** An entry of a window is one of the whole series. */
  lemma EntryOfLast<T>(s: seq<T>, max: nat, i: nat)
    requires i < |Last(s, max)|
    ensures Last(s, max)[i] == s[|s| - |Last(s, max)| + i]
  {
  }

  lemma EntryAt(events: seq<PacketEvent>, k: nat)
    requires k < |events|
    ensures var r := Recount(events);
            && |r.sent| == |r.received| == |r.elapsed| == |events|
            && r.sent[k] + r.received[k] == k + 1
            && r.elapsed[k] == events[k].timestamp - events[0].timestamp
  {
    EveryPacketCounts(events[..k + 1]);
    hide Packets;
  }

  /** From one entry to the next each series grows by what its event brought, and the
      first entry starts from nothing. */
  lemma {:induction false} SeriesStep(events: seq<PacketEvent>, k: nat)
    requires k < |events|
    ensures var r, e := Recount(events), events[k];
            && r.elapsed[k] == e.timestamp - events[0].timestamp
            && r.sent[k] == (if k == 0 then 0 else r.sent[k - 1]) + (if e.direction == Sent then 1 else 0)
            && r.received[k] == (if k == 0 then 0 else r.received[k - 1]) + (if e.direction == Received then 1 else 0)
            && r.bytesSent[k]
               == (if k == 0 then 0 else r.bytesSent[k - 1]) + (if e.direction == Sent then e.size else 0)
            && r.bytesReceived[k]
               == (if k == 0 then 0 else r.bytesReceived[k - 1]) + (if e.direction == Received then e.size else 0)
  {
    assert events[..k + 1] == events[..k] + [events[k]];
    CountsMore(events[..k], events[k], Sent);
    CountsMore(events[..k], events[k], Received);
    NothingYet(0);
    hide Packets, Octets;
  }
}
