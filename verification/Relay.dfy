/**
 The byte relay between a proxy client and the echo backend, as a chain of
 workers joined by TCP directions.

 Every thread that moves bytes does the same thing: it takes a chunk off one TCP
 direction, then writes that chunk, piece by piece, into the next one. With the
 stub proxy in the path the workers are, in order, the client-to-origin pump, the
 backend's echo handler and the origin-to-client pump; in transparent mode the
 echo handler is the only one. The chain length is therefore a parameter, and
 every result below holds for any number of relays in a row.

 A step of the machine is one socket operation of one party, so a sequence of
 steps is one interleaving of the threads.
 */
module Relay {
  import opened Basics

  /** One TCP direction: bytes in flight, then perhaps a FIN. `reset` means the
      connection broke; whatever was in flight is gone. */
  datatype Link = Link(queue: Bytes, capacity: nat, fin: bool, reset: bool)

  /** What a relaying thread is doing. A clean end follows an end-of-stream it
      passed on; any other end is an error, or a stop request. */
  datatype Phase = Reading | Sending | Ended(clean: bool)

  datatype Worker = Worker(phase: Phase, held: Bytes)

  /** Worker `i` reads `links[i]` and writes `links[i + 1]`; the client writes
      `links[0]` and reads the last link. */
  datatype System = System(sent: Bytes, received: Bytes, links: seq<Link>, workers: seq<Worker>) {
    ghost predicate Shaped() {
      |links| == |workers| + 1
    }

    function Last(): nat
      requires |links| > 0
    {
      |links| - 1
    }
  }

  datatype Action =
    | ClientSend(data: Bytes)              // part of a sendall
    | ClientHalfClose                      // shutdown(SHUT_WR)
    | ClientRecv(count: nat)               // recv returned count bytes
    | WorkerRecv(worker: nat, count: nat)  // recv returned count bytes
    | WorkerSend(worker: nat, count: nat)  // part of a sendall
    | WorkerEof(worker: nat)               // recv returned nothing: pass the FIN on and return
    | WorkerFail(worker: nat)              // an OSError, or a stop request: return at once
    | WorkerClose(worker: nat)             // the thread is gone and its output socket is closed
    | LinkReset(link: nat)                 // the connection under a link breaks

  predicate Room(link: Link, count: nat) {
    !link.reset && !link.fin && |link.queue| + count <= link.capacity
  }

  predicate Enabled(s: System, a: Action)
    requires s.Shaped()
  {
    match a
    case ClientSend(data) => data != [] && Room(s.links[0], |data|)
    case ClientHalfClose => !s.links[0].fin && !s.links[0].reset
    case ClientRecv(count) => 0 < count <= |s.links[s.Last()].queue| && !s.links[s.Last()].reset
    case WorkerRecv(w, count) =>
      && w < |s.workers| && s.workers[w].phase == Reading && !s.links[w].reset
      && 0 < count <= |s.links[w].queue| && count <= RECV_CHUNK
    case WorkerSend(w, count) =>
      && w < |s.workers| && s.workers[w].phase == Sending
      && 0 < count <= |s.workers[w].held| && Room(s.links[w + 1], count)
    case WorkerEof(w) =>
      && w < |s.workers| && s.workers[w].phase == Reading && AtEof(s.links[w]) && !s.links[w + 1].reset
    case WorkerFail(w) => w < |s.workers| && !s.workers[w].phase.Ended?
    case WorkerClose(w) => w < |s.workers| && s.workers[w].phase.Ended? && !s.links[w + 1].fin
    case LinkReset(l) => l < |s.links| && !s.links[l].reset
  }

  /** A reader of this link gets end-of-stream. */
  predicate AtEof(link: Link) {
    link.queue == [] && link.fin && !link.reset
  }

  function Apply(s: System, a: Action): (t: System)
    requires s.Shaped() && Enabled(s, a)
    ensures t.Shaped()
  {
    match a
    case ClientSend(data) =>
      s.(sent := s.sent + data, links := s.links[0 := Push(s.links[0], data)])
    case ClientHalfClose =>
      s.(links := s.links[0 := s.links[0].(fin := true)])
    case ClientRecv(count) =>
      var n := s.Last();
      s.(received := s.received + s.links[n].queue[..count], links := s.links[n := Pop(s.links[n], count)])
    case WorkerRecv(w, count) =>
      s.(links := s.links[w := Pop(s.links[w], count)],
         workers := s.workers[w := Worker(Sending, s.links[w].queue[..count])])
    case WorkerSend(w, count) =>
      var held := s.workers[w].held;
      s.(links := s.links[w + 1 := Push(s.links[w + 1], held[..count])],
         workers := s.workers[w := Worker(if count == |held| then Reading else Sending, held[count..])])
    case WorkerEof(w) =>
      s.(links := s.links[w + 1 := s.links[w + 1].(fin := true)],
         workers := s.workers[w := s.workers[w].(phase := Ended(true))])
    case WorkerFail(w) =>
      s.(workers := s.workers[w := s.workers[w].(phase := Ended(false))])
    case WorkerClose(w) =>
      s.(links := s.links[w + 1 := s.links[w + 1].(fin := true)])
    case LinkReset(l) =>
      s.(links := s.links[l := s.links[l].(queue := [], reset := true)])
  }

  function Push(link: Link, data: Bytes): Link {
    link.(queue := link.queue + data)
  }

  function Pop(link: Link, count: nat): Link
    requires count <= |link.queue|
  {
    link.(queue := link.queue[count..])
  }

  /** Every step of the schedule is possible when its turn comes. */
  predicate Runs(s: System, schedule: seq<Action>)
    requires s.Shaped()
    decreases |schedule|
  {
    schedule == [] || (Enabled(s, schedule[0]) && Runs(Apply(s, schedule[0]), schedule[1..]))
  }

  function Run(s: System, schedule: seq<Action>): (t: System)
    requires s.Shaped() && Runs(s, schedule)
    ensures t.Shaped()
    decreases |schedule|
  {
    if schedule == [] then s else Run(Apply(s, schedule[0]), schedule[1..])
  }

  /** The relay just after every connection was made. */
  ghost predicate Fresh(s: System) {
    && s.Shaped() && s.sent == [] && s.received == []
    && (forall l :: 0 <= l < |s.links| ==> s.links[l] == Link([], s.links[l].capacity, false, false))
    && (forall w :: 0 <= w < |s.workers| ==> s.workers[w] == Worker(Reading, []))
  }

  // --- What is still on its way -------------------------------------------

  /** The bytes that can still come out of link `l`, oldest first. A broken
      link or a failed worker lets nothing from behind it through. */
  ghost function Upstream(s: System, l: nat): Bytes
    requires s.Shaped() && l < |s.links|
    decreases l, 0
  {
    if s.links[l].reset then []
    else s.links[l].queue + (if l == 0 then [] else Behind(s, l - 1))
  }

  ghost function Behind(s: System, w: nat): Bytes
    requires s.Shaped() && w < |s.workers|
    decreases w, 1
  {
    if s.workers[w].phase == Ended(false) then [] else s.workers[w].held + Upstream(s, w)
  }

  /** Nothing between the client's send side and the far end of link `l` broke. */
  ghost predicate Whole(s: System, l: nat)
    requires s.Shaped() && l < |s.links|
    decreases l
  {
    && !s.links[l].reset
    && (l > 0 ==> s.workers[l - 1].phase != Ended(false) && Whole(s, l - 1))
  }

  /** No connection broke and no thread failed anywhere. */
  ghost predicate Unbroken(s: System)
    requires s.Shaped()
  {
    Whole(s, s.Last())
  }

  /** Conservation: what the client read, followed by everything still in
      flight, is a prefix of what it sent, and all of it while nothing broke. */
  ghost predicate Conserved(s: System)
    requires s.Shaped()
  {
    var account := s.received + Upstream(s, s.Last());
    account <= s.sent && (Unbroken(s) ==> account == s.sent)
  }

  /** Each worker holds bytes exactly while it is sending them, and a FIN is
      only ever behind everything its sender had to say. */
  ghost predicate Orderly(s: System)
    requires s.Shaped()
  {
    && (forall w :: 0 <= w < |s.workers| ==> WorkerOrderly(s, w))
    && (forall l :: 0 <= l < |s.links| ==> |s.links[l].queue| <= s.links[l].capacity)
  }

  ghost predicate WorkerOrderly(s: System, w: nat)
    requires s.Shaped() && w < |s.workers|
  {
    var worker := s.workers[w];
    && (worker.phase == Reading ==> worker.held == [])
    && (worker.phase == Sending ==> 0 < |worker.held| <= RECV_CHUNK)
    && (worker.phase == Ended(true) ==>
          worker.held == [] && s.links[w].queue == [] && s.links[w].fin && s.links[w + 1].fin)
    && (s.links[w + 1].fin ==> worker.phase.Ended?)
  }

  ghost predicate Inv(s: System) {
    s.Shaped() && Conserved(s) && Orderly(s)
  }

  // --- Every step keeps the invariant --------------------------------------

  /** A change below link `l` that leaves link `l`'s own view alone is invisible
      to everything downstream. */
  lemma {:induction false} Unseen(s: System, t: System, l: nat, m: nat)
    requires s.Shaped() && t.Shaped() && |s.links| == |t.links| && l <= m < |s.links|
    requires forall k :: l < k <= m ==> s.links[k].queue == t.links[k].queue && s.links[k].reset == t.links[k].reset
    requires forall k :: l <= k < m ==> s.workers[k] == t.workers[k]
    requires Upstream(t, l) == Upstream(s, l) && Whole(t, l) == Whole(s, l)
    ensures Upstream(t, m) == Upstream(s, m) && Whole(t, m) == Whole(s, m)
  {
    if l < m {
      Unseen(s, t, l, m - 1);
      assert Behind(t, m - 1) == Behind(s, m - 1);
    }
  }

  /** Bytes added at link `l` show up at the end of every intact downstream view. */
  lemma {:induction false} Appended(s: System, t: System, data: Bytes, m: nat)
    requires s.Shaped() && t.Shaped() && |s.links| == |t.links| && m < |s.links|
    requires !s.links[0].reset && t.links == s.links[0 := Push(s.links[0], data)] && t.workers == s.workers
    ensures Whole(t, m) == Whole(s, m)
    ensures Upstream(t, m) == Upstream(s, m) + (if Whole(s, m) then data else [])
  {
    if m > 0 {
      Appended(s, t, data, m - 1);
      assert t.links[m] == s.links[m];
      var tail := if Whole(s, m - 1) then data else [];
      AppendThrough(s.links[m].queue, s.workers[m - 1].held, Upstream(s, m - 1), tail);
    }
  }

  lemma AppendThrough(queue: Bytes, held: Bytes, upstream: Bytes, tail: Bytes)
    ensures queue + (held + (upstream + tail)) == queue + (held + upstream) + tail
    ensures upstream + [] == upstream
  {
  }

  /** Losing bytes at link `l` shortens every downstream view to a prefix. */
  lemma {:induction false} Cut(s: System, t: System, l: nat, m: nat)
    requires s.Shaped() && t.Shaped() && |s.links| == |t.links| && l <= m < |s.links|
    requires forall k :: l < k <= m ==> s.links[k] == t.links[k]
    requires forall k :: l <= k < m ==> s.workers[k] == t.workers[k]
    requires Upstream(t, l) <= Upstream(s, l) && !Whole(t, l)
    ensures Upstream(t, m) <= Upstream(s, m) && !Whole(t, m)
  {
    if l < m {
      CutBehind(s, t, m);
      hide Upstream;
      Cut(s, t, l, m - 1);
    }
  }

  /** Less above a link that is the same, and a worker that is the same: less behind. */
  lemma CutBehind(s: System, t: System, m: nat)
    requires s.Shaped() && t.Shaped() && |s.links| == |t.links| && 0 < m < |s.links|
    requires s.links[m] == t.links[m] && s.workers[m - 1] == t.workers[m - 1]
    ensures Upstream(t, m - 1) <= Upstream(s, m - 1) ==> Upstream(t, m) <= Upstream(s, m)
  {
    if Upstream(t, m - 1) <= Upstream(s, m - 1) {
      FrontAfter(s.workers[m - 1].held, Upstream(t, m - 1), Upstream(s, m - 1));
      assert Behind(t, m - 1) <= Behind(s, m - 1);
      hide Behind;
      FrontAfter(s.links[m].queue, Behind(t, m - 1), Behind(s, m - 1));
    }
  }

  lemma {:induction false} SendConserves(s: System, data: Bytes)
    requires Inv(s) && Enabled(s, ClientSend(data))
    ensures Conserved(Apply(s, ClientSend(data)))
  {
    var t := Apply(s, ClientSend(data));
    Appended(s, t, data, s.Last());
    assert s.received + (Upstream(s, s.Last()) + data) == (s.received + Upstream(s, s.Last())) + data;
    assert s.sent <= t.sent;
  }

  lemma {:induction false} ReceiveConserves(s: System, count: nat)
    requires Inv(s) && Enabled(s, ClientRecv(count))
    ensures Conserved(Apply(s, ClientRecv(count)))
  {
    var t := Apply(s, ClientRecv(count));
    var n := s.Last();
    if n > 0 {
      SameBelow(s, t, n - 1);
    }
    MoveHead(s.received, s.links[n].queue, if n == 0 then [] else Behind(s, n - 1), count);
  }

  /** Moving the front of a queue to the end of what lies before it. */
  lemma MoveHead(before: Bytes, queue: Bytes, after: Bytes, count: nat)
    requires count <= |queue|
    ensures (before + queue[..count]) + (queue[count..] + after) == before + (queue + after)
    ensures queue[..count] + (queue[count..] + after) == queue + after
  {
  }

  /** Views depend on nothing downstream of them. */
  lemma {:induction false} SameBelow(s: System, t: System, l: nat)
    requires s.Shaped() && t.Shaped() && |s.links| == |t.links| && l < |s.links|
    requires forall k :: 0 <= k <= l ==> s.links[k].queue == t.links[k].queue && s.links[k].reset == t.links[k].reset
    requires forall k :: 0 <= k < l ==> s.workers[k] == t.workers[k]
    ensures Upstream(t, l) == Upstream(s, l) && Whole(t, l) == Whole(s, l)
  {
    Unseen(s, t, 0, l);
  }

  lemma {:induction false} WorkerStepConserves(s: System, a: Action)
    requires Inv(s) && Enabled(s, a)
    requires a.WorkerRecv? || a.WorkerSend? || a.WorkerEof? || a.WorkerClose?
    ensures Conserved(Apply(s, a))
  {
    hide Upstream, Whole, Orderly;
    WorkerStepHides(s, a);
    Unseen(s, Apply(s, a), a.worker + 1, s.Last());
  }

  /** What a worker does changes nothing in the view from its output link. */
  lemma {:induction false} WorkerStepHides(s: System, a: Action)
    requires Inv(s) && Enabled(s, a)
    requires a.WorkerRecv? || a.WorkerSend? || a.WorkerEof? || a.WorkerClose?
    ensures var t := Apply(s, a);
            Upstream(t, a.worker + 1) == Upstream(s, a.worker + 1) && Whole(t, a.worker + 1) == Whole(s, a.worker + 1)
  {
    hide *;
    match a
    case WorkerRecv(w, count) => ReceiveHides(s, w, count);
    case WorkerSend(w, count) => SendHides(s, w, count);
    case WorkerEof(w) => EofHides(s, w);
    case WorkerClose(w) => CloseHides(s, w);
  }

  lemma {:induction false} CloseHides(s: System, w: nat)
    requires Inv(s) && Enabled(s, WorkerClose(w))
    ensures var t := Apply(s, WorkerClose(w));
            Upstream(t, w + 1) == Upstream(s, w + 1) && Whole(t, w + 1) == Whole(s, w + 1)
  {
    SameBelow(s, Apply(s, WorkerClose(w)), w);
  }

  lemma {:induction false} ReceiveHides(s: System, w: nat, count: nat)
    requires Inv(s) && Enabled(s, WorkerRecv(w, count))
    ensures var t := Apply(s, WorkerRecv(w, count));
            Upstream(t, w + 1) == Upstream(s, w + 1) && Whole(t, w + 1) == Whole(s, w + 1)
  {
    var t := Apply(s, WorkerRecv(w, count));
    assert WorkerOrderly(s, w);
    if w > 0 { SameBelow(s, t, w - 1); }
    var after := if w == 0 then [] else Behind(s, w - 1);
    MoveHead([], s.links[w].queue, after, count);
    assert Upstream(t, w) == s.links[w].queue[count..] + after;
    assert Behind(s, w) == [] + Upstream(s, w) == Upstream(s, w);
    assert Behind(t, w) == Behind(s, w);
    assert t.links[w + 1] == s.links[w + 1];
  }

  lemma {:induction false} SendHides(s: System, w: nat, count: nat)
    requires Inv(s) && Enabled(s, WorkerSend(w, count))
    ensures var t := Apply(s, WorkerSend(w, count));
            Upstream(t, w + 1) == Upstream(s, w + 1) && Whole(t, w + 1) == Whole(s, w + 1)
  {
    var t := Apply(s, WorkerSend(w, count));
    SameBelow(s, t, w);
    MoveHead(s.links[w + 1].queue, s.workers[w].held, Upstream(s, w), count);
    assert Behind(t, w) == s.workers[w].held[count..] + Upstream(s, w);
  }

  lemma {:induction false} EofHides(s: System, w: nat)
    requires Inv(s) && Enabled(s, WorkerEof(w))
    ensures var t := Apply(s, WorkerEof(w));
            Upstream(t, w + 1) == Upstream(s, w + 1) && Whole(t, w + 1) == Whole(s, w + 1)
  {
    var t := Apply(s, WorkerEof(w));
    SameBelow(s, t, w);
    assert Behind(t, w) == Behind(s, w);
  }

  lemma {:induction false} BreakConserves(s: System, a: Action)
    requires Inv(s) && Enabled(s, a) && (a.WorkerFail? || a.LinkReset?)
    ensures Conserved(Apply(s, a)) && !Unbroken(Apply(s, a))
  {
    var t := Apply(s, a);
    var n := s.Last();
    var at := if a.LinkReset? then a.link else a.worker + 1;
    hide Upstream, Whole, Orderly, Conserved, Enabled, Apply;
    BreakCuts(s, a, at);
    BreakIsLocal(s, a, at);
    Cut(s, t, at, n);
    LessInFlight(s, t);
  }

  lemma BreakIsLocal(s: System, a: Action, at: nat)
    requires s.Shaped() && Enabled(s, a)
    requires (a.WorkerFail? && at == a.worker + 1) || (a.LinkReset? && at == a.link)
    ensures var t := Apply(s, a);
            && t.sent == s.sent && t.received == s.received
            && |t.links| == |s.links| && |t.workers| == |s.workers|
            && (forall k :: at < k < |s.links| ==> t.links[k] == s.links[k])
            && (forall k :: at <= k < |s.workers| ==> t.workers[k] == s.workers[k])
  {
  }

  lemma LessInFlight(s: System, t: System)
    requires s.Shaped() && t.Shaped() && Conserved(s) && |s.links| == |t.links|
    requires t.sent == s.sent && t.received == s.received
    requires Upstream(t, t.Last()) <= Upstream(s, s.Last()) && !Whole(t, t.Last())
    ensures Conserved(t)
  {
    hide Upstream, Whole;
    FrontAfter(s.received, Upstream(t, t.Last()), Upstream(s, s.Last()));
  }

  lemma FrontAfter(a: Bytes, b: Bytes, c: Bytes)
    requires b <= c
    ensures a + b <= a + c
  {
  }

  lemma {:induction false} BreakCuts(s: System, a: Action, at: nat)
    requires s.Shaped() && Enabled(s, a)
    requires (a.WorkerFail? && at == a.worker + 1) || (a.LinkReset? && at == a.link)
    ensures at < |s.links| && Upstream(Apply(s, a), at) <= Upstream(s, at) && !Whole(Apply(s, a), at)
  {
  }

  lemma {:induction false} StepKeepsOrder(s: System, a: Action)
    requires Inv(s) && Enabled(s, a)
    ensures Orderly(Apply(s, a))
  {
    hide Conserved;
    var t := Apply(s, a);
    forall w | 0 <= w < |t.workers| ensures WorkerOrderly(t, w) {
      StepKeepsWorkerOrder(s, a, w);
    }
  }

  lemma {:induction false} StepKeepsWorkerOrder(s: System, a: Action, w: nat)
    requires s.Shaped() && Orderly(s) && Enabled(s, a) && w < |s.workers|
    ensures WorkerOrderly(Apply(s, a), w)
  {
    assert WorkerOrderly(s, w);
    hide Orderly;
    if a.WorkerRecv? || a.WorkerSend? || a.WorkerEof? {
      WorkerStepKeepsOrder(s, a, w);
    }
  }

  lemma {:induction false} WorkerStepKeepsOrder(s: System, a: Action, w: nat)
    requires s.Shaped() && Enabled(s, a) && w < |s.workers| && WorkerOrderly(s, w)
    requires a.WorkerRecv? || a.WorkerSend? || a.WorkerEof?
    ensures WorkerOrderly(Apply(s, a), w)
  {
  }

  lemma {:induction false} StepKeepsInv(s: System, a: Action)
    requires Inv(s) && Enabled(s, a)
    ensures Inv(Apply(s, a))
  {
    StepKeepsOrder(s, a);
    match a
    case ClientSend(data) => SendConserves(s, data);
    case ClientHalfClose => Unseen(s, Apply(s, a), 0, s.Last());
    case ClientRecv(count) => ReceiveConserves(s, count);
    case WorkerFail(_) => BreakConserves(s, a);
    case LinkReset(_) => BreakConserves(s, a);
    case WorkerRecv(_, _) => WorkerStepConserves(s, a);
    case WorkerSend(_, _) => WorkerStepConserves(s, a);
    case WorkerEof(_) => WorkerStepConserves(s, a);
    case WorkerClose(_) => WorkerStepConserves(s, a);
  }

  lemma {:induction false} FreshInv(s: System)
    requires Fresh(s)
    ensures Inv(s) && Unbroken(s)
  {
    NothingInFlight(s, s.Last());
  }

  lemma {:induction false} NothingInFlight(s: System, l: nat)
    requires Fresh(s) && l < |s.links|
    ensures Upstream(s, l) == [] && Whole(s, l)
  {
    if l > 0 {
      NothingInFlight(s, l - 1);
      assert Behind(s, l - 1) == [];
    }
  }

  lemma {:induction false} RunKeepsInv(s: System, schedule: seq<Action>)
    requires Inv(s) && Runs(s, schedule)
    ensures Inv(Run(s, schedule))
    decreases |schedule|
  {
    if schedule != [] {
      StepKeepsInv(s, schedule[0]);
      RunKeepsInv(Apply(s, schedule[0]), schedule[1..]);
    }
  }

  // --- Safety over whole runs ----------------------------------------------

  /** Conservation at every moment of every interleaving, failures included;
      so what the client reads is always a prefix of what it sent. */
  lemma {:induction false} RelayFidelity(s: System, schedule: seq<Action>)
    requires Fresh(s) && Runs(s, schedule)
    ensures var t := Run(s, schedule);
            && t.received <= t.sent
            && t.received + Upstream(t, t.Last()) <= t.sent
            && (Unbroken(t) ==> t.received + Upstream(t, t.Last()) == t.sent)
  {
    FreshInv(s);
    RunKeepsInv(s, schedule);
    var t := Run(s, schedule);
    assert t.received <= t.received + Upstream(t, t.Last());
  }

  /** End-of-stream at link `l` of an unbroken chain: everything before it ended too. */
  lemma {:induction false} EofMeansDrained(s: System, l: nat)
    requires Inv(s) && l < |s.links| && Whole(s, l) && AtEof(s.links[l])
    ensures Upstream(s, l) == [] && s.links[0].fin
  {
    if l > 0 {
      assert WorkerOrderly(s, l - 1);
      EofMeansDrained(s, l - 1);
      assert Behind(s, l - 1) == [];
    }
  }

  /** In a run without failures the client meets end-of-stream only after it
      half-closed and after every byte it sent came back. */
  lemma {:induction false} EofOnlyAfterEverything(s: System, schedule: seq<Action>)
    requires Fresh(s) && Runs(s, schedule)
    ensures var t := Run(s, schedule);
            Unbroken(t) && AtEof(t.links[t.Last()]) ==> t.links[0].fin && t.received == t.sent
  {
    FreshInv(s);
    RunKeepsInv(s, schedule);
    var t := Run(s, schedule);
    if Unbroken(t) && AtEof(t.links[t.Last()]) {
      EofMeansDrained(t, t.Last());
    }
  }

  /** A round trip begun with nothing outstanding returns exactly its payload,
      whatever the threads did in between and whatever else failed later. */
  lemma {:induction false} RoundtripReturnsPayload(s: System, before: seq<Action>, during: seq<Action>, payload: Bytes)
    requires Fresh(s) && Runs(s, before) && Runs(Run(s, before), during)
    requires Run(s, before).received == Run(s, before).sent
    requires Run(Run(s, before), during).sent == Run(s, before).sent + payload
    requires |Run(Run(s, before), during).received| == |Run(s, before).received| + |payload|
    ensures Run(Run(s, before), during).received == Run(s, before).received + payload
  {
    FreshInv(s);
    RunKeepsInv(s, before);
    var u := Run(s, before);
    RunKeepsInv(u, during);
    var t := Run(u, during);
    assert t.received <= t.received + Upstream(t, t.Last());
    assert t.received == t.sent[..|t.received|];
  }

  // --- Progress ------------------------------------------------------------

  /** What the threads and a reading client do of their own accord. */
  predicate Draining(a: Action) {
    a.ClientRecv? || a.WorkerRecv? || a.WorkerSend? || a.WorkerEof?
  }

  /** Remaining socket operations: each byte still has two per worker ahead of
      it and a final read, and each running worker still has to pass a FIN on. */
  ghost function Work(s: System, l: nat): nat
    requires s.Shaped() && l < |s.links|
    decreases l
  {
    (2 * (s.Last() - l) + 1) * |s.links[l].queue|
    + (if l == 0 then 0
       else 2 * (s.Last() - l + 1) * |s.workers[l - 1].held|
            + (if s.workers[l - 1].phase.Ended? then 0 else 1) + Work(s, l - 1))
  }

  /** Work at and below a link does not look downstream of it. */
  lemma {:induction false} WorkBelow(s: System, t: System, l: nat)
    requires s.Shaped() && t.Shaped() && |s.links| == |t.links| && l < |s.links|
    requires forall k :: 0 <= k <= l ==> s.links[k].queue == t.links[k].queue
    requires forall k :: 0 <= k < l ==> s.workers[k] == t.workers[k]
    ensures Work(t, l) == Work(s, l)
  {
    if l > 0 {
      WorkBelow(s, t, l - 1);
    }
  }

  lemma {:induction false} WorkAbove(s: System, t: System, l: nat, m: nat)
    requires s.Shaped() && t.Shaped() && |s.links| == |t.links| && l <= m < |s.links|
    requires forall k :: l < k <= m ==> s.links[k].queue == t.links[k].queue
    requires forall k :: l <= k < m ==> s.workers[k] == t.workers[k]
    requires Work(t, l) < Work(s, l)
    ensures Work(t, m) < Work(s, m)
  {
    if l < m {
      WorkAbove(s, t, l, m - 1);
    }
  }

  /** Every draining step leaves strictly less to do and breaks nothing. */
  lemma {:induction false} DrainingDecreases(s: System, a: Action)
    requires Inv(s) && Unbroken(s) && Enabled(s, a) && Draining(a)
    ensures var t := Apply(s, a);
            Inv(t) && Unbroken(t) && t.links[0].fin == s.links[0].fin && Work(t, s.Last()) < Work(s, s.Last())
  {
    StepKeepsInv(s, a);
    DrainingKeepsWhole(s, a, s.Last());
    DrainingWorks(s, a);
  }

  lemma {:induction false} DrainingWorks(s: System, a: Action)
    requires Inv(s) && Enabled(s, a) && Draining(a)
    ensures Work(Apply(s, a), s.Last()) < Work(s, s.Last())
  {
    if a.ClientRecv? {
      ReadWorks(s, a.count);
    } else {
      if a.WorkerRecv? {
        ReceiveWorks(s, a.worker, a.count);
      } else if a.WorkerSend? {
        SendWorks(s, a.worker, a.count);
      } else {
        EofWorks(s, a.worker);
      }
      WorkAbove(s, Apply(s, a), a.worker + 1, s.Last());
    }
  }

  lemma {:induction false} ReadWorks(s: System, count: nat)
    requires Inv(s) && Enabled(s, ClientRecv(count))
    ensures Work(Apply(s, ClientRecv(count)), s.Last()) < Work(s, s.Last())
  {
    var t := Apply(s, ClientRecv(count));
    var n := s.Last();
    WorkOnTop(s);
    WorkOnTop(t);
    hide Inv, Work;
    if n > 0 { WorkBelow(s, t, n - 1); }
  }

  lemma WorkOnTop(s: System)
    requires s.Shaped()
    ensures var n := s.Last();
            Work(s, n) == |s.links[n].queue|
                          + (if n == 0 then 0
                             else 2 * |s.workers[n - 1].held| + (if s.workers[n - 1].phase.Ended? then 0 else 1)
                                  + Work(s, n - 1))
  {
    var n := s.Last();
    assert 2 * (n - n) + 1 == 1 && 2 * (n - n + 1) == 2;
  }

  lemma {:induction false} EofWorks(s: System, w: nat)
    requires Inv(s) && Enabled(s, WorkerEof(w))
    ensures Work(Apply(s, WorkerEof(w)), w + 1) < Work(s, w + 1)
  {
    WorkBelow(s, Apply(s, WorkerEof(w)), w);
  }

  lemma {:induction false} ReceiveWorks(s: System, w: nat, count: nat)
    requires Inv(s) && Enabled(s, WorkerRecv(w, count))
    ensures Work(Apply(s, WorkerRecv(w, count)), w + 1) < Work(s, w + 1)
  {
    assert WorkerOrderly(s, w);
    assert s.workers[w].held == [];
    hide Conserved, Orderly, WorkerOrderly;
    var t := Apply(s, WorkerRecv(w, count));
    if w > 0 { WorkBelow(s, t, w - 1); }
    Cheaper(2 * (s.Last() - w), 0, |t.links[w].queue|, count);
    assert |s.links[w].queue| == |t.links[w].queue| + count;
    Dearer(2 * (s.Last() - w), |t.links[w].queue|, count);
  }

  lemma {:induction false} SendWorks(s: System, w: nat, count: nat)
    requires Inv(s) && Enabled(s, WorkerSend(w, count))
    ensures Work(Apply(s, WorkerSend(w, count)), w + 1) < Work(s, w + 1)
  {
    var t := Apply(s, WorkerSend(w, count));
    WorkBelow(s, t, w);
    assert WorkerOrderly(s, w);
    var c := 2 * (s.Last() - (w + 1)) + 1;
    var left, there := |t.workers[w].held|, |s.links[w + 1].queue|;
    assert |s.workers[w].held| == left + count && |t.links[w + 1].queue| == there + count;
    assert 2 * (s.Last() - (w + 1) + 1) == c + 1;
    Cheaper(c, left, there, count);
  }

  lemma Dearer(c: int, left: nat, count: nat)
    ensures (c + 1) * (left + count) == (c + 1) * left + c * count + count
  {
  }

  /** Bytes moved from a place of weight `c + 1` to one of weight `c`. */
  lemma Cheaper(c: int, left: nat, there: nat, count: nat)
    ensures (c + 1) * left + c * (there + count) == (c + 1) * (left + count) + c * there - count
  {
  }

  lemma {:induction false} DrainingKeepsWhole(s: System, a: Action, l: nat)
    requires s.Shaped() && Enabled(s, a) && Draining(a) && l < |s.links| && Whole(s, l)
    ensures Whole(Apply(s, a), l)
  {
    if l > 0 {
      DrainingKeepsWhole(s, a, l - 1);
    }
  }

  /** Starting from an empty link without a FIN, some thread behind it can move. */
  lemma {:induction false} SomeoneCanMove(s: System, l: nat) returns (a: Action)
    requires Inv(s) && l < |s.links| && Whole(s, l) && s.links[0].fin
    requires forall k :: 0 <= k < |s.links| ==> s.links[k].capacity > 0
    requires s.links[l].queue == [] && !s.links[l].fin
    ensures Enabled(s, a) && Draining(a)
  {
    var w := l - 1;
    assert WorkerOrderly(s, w);
    if s.workers[w].phase == Sending {
      a := WorkerSend(w, 1);
    } else if s.links[w].queue != [] {
      a := WorkerRecv(w, 1);
    } else if s.links[w].fin {
      a := WorkerEof(w);
    } else {
      a := SomeoneCanMove(s, w);
    }
  }

  /** A half-closed, unbroken relay whose client keeps reading never hangs: until
      the client is at end-of-stream, some step is possible. */
  lemma {:induction false} NeverStuckAfterHalfClose(s: System) returns (a: Action)
    requires Inv(s) && Unbroken(s) && s.links[0].fin && !AtEof(s.links[s.Last()])
    requires forall k :: 0 <= k < |s.links| ==> s.links[k].capacity > 0
    ensures Enabled(s, a) && Draining(a)
  {
    if s.links[s.Last()].queue != [] {
      a := ClientRecv(1);
    } else {
      a := SomeoneCanMove(s, s.Last());
    }
  }

  lemma {:induction false} StuckIsDrained(s: System)
    requires Inv(s) && Unbroken(s) && s.links[0].fin
    requires forall k :: 0 <= k < |s.links| ==> s.links[k].capacity > 0
    ensures (forall a :: Draining(a) ==> !Enabled(s, a)) ==> AtEof(s.links[s.Last()]) && s.received == s.sent
  {
    if AtEof(s.links[s.Last()]) {
      EofMeansDrained(s, s.Last());
    } else {
      var a := NeverStuckAfterHalfClose(s);
    }
  }

  /** After a half-close every schedule of the threads and a reading client is
      finite, and where it can go no further the client is at end-of-stream
      holding everything it ever sent. */
  lemma {:induction false} HalfCloseDrains(s: System, schedule: seq<Action>)
    requires Inv(s) && Unbroken(s) && s.links[0].fin && Runs(s, schedule)
    requires forall k :: 0 <= k < |s.links| ==> s.links[k].capacity > 0
    requires forall i :: 0 <= i < |schedule| ==> Draining(schedule[i])
    ensures |schedule| <= Work(s, s.Last())
    ensures var t := Run(s, schedule);
            (forall a :: Draining(a) ==> !Enabled(t, a)) ==> AtEof(t.links[t.Last()]) && t.received == t.sent
    decreases |schedule|
  {
    if schedule == [] {
      StuckIsDrained(s);
    } else {
      DrainingDecreases(s, schedule[0]);
      SameCapacities(s, schedule[0]);
      hide Inv, Unbroken, AtEof, Work, Draining, Enabled;
      HalfCloseDrains(Apply(s, schedule[0]), schedule[1..]);
    }
  }

  // --- Sending without reading ---------------------------------------------

  /** Room for everything a client may send before it starts to read: all the
      buffers, and one byte in the hands of each worker. */
  ghost function Buffering(s: System, l: nat): nat
    requires s.Shaped() && l < |s.links|
    decreases l
  {
    s.links[l].capacity + (if l == 0 then 0 else 1 + Buffering(s, l - 1))
  }

  /** Nothing but a read by the client can happen. */
  ghost predicate SendBlocked(s: System)
    requires s.Shaped()
  {
    forall a: Action :: a.ClientSend? || a.WorkerRecv? || a.WorkerSend? || a.WorkerEof? ==> !Enabled(s, a)
  }

  /** Every buffer is full and every worker has a chunk it cannot pass on. */
  ghost predicate Jammed(s: System)
    requires s.Shaped()
  {
    && (forall l :: 0 <= l < |s.links| ==> |s.links[l].queue| == s.links[l].capacity)
    && (forall w :: 0 <= w < |s.workers| ==> s.workers[w].phase == Sending)
  }

  /** While the client sends without reading, an unbroken relay stops moving
      exactly when it is jammed end to end. */
  lemma {:induction false} BlockedIffJammed(s: System)
    requires Inv(s) && Unbroken(s) && !s.links[0].fin
    requires forall k :: 0 <= k < |s.links| ==> s.links[k].capacity > 0
    ensures SendBlocked(s) <==> Jammed(s)
  {
    if SendBlocked(s) {
      JamSpreads(s, s.Last());
    }
  }

  lemma {:induction false} JamSpreads(s: System, l: nat)
    requires Inv(s) && l < |s.links| && Whole(s, l) && !s.links[0].fin && SendBlocked(s)
    requires forall k :: 0 <= k < |s.links| ==> s.links[k].capacity > 0
    ensures !s.links[l].fin
    ensures forall k :: 0 <= k <= l ==> |s.links[k].queue| == s.links[k].capacity
    ensures forall k :: 0 <= k < l ==> s.workers[k].phase == Sending
  {
    if l == 0 {
      assert !Enabled(s, ClientSend([0]));
    } else {
      JamSpreads(s, l - 1);
      assert WorkerOrderly(s, l - 1);
      assert !Enabled(s, WorkerRecv(l - 1, 1));
      assert !Enabled(s, WorkerSend(l - 1, 1));
    }
  }

  /** A jammed relay holds at least its full buffering. */
  lemma {:induction false} JamSize(s: System, l: nat)
    requires Inv(s) && l < |s.links| && Whole(s, l) && Jammed(s)
    ensures |Upstream(s, l)| >= Buffering(s, l)
  {
    if l > 0 {
      JamSize(s, l - 1);
      assert WorkerOrderly(s, l - 1);
    }
  }

  /** `roundtrip` sends its whole payload before it reads. In a relay that has
      not failed, a payload no larger than the buffering always gets through:
      there is a step to take until the last byte is sent. */
  lemma {:induction false} PayloadFitsNeverBlocks(s: System, schedule: seq<Action>)
    requires Fresh(s) && Runs(s, schedule)
    requires forall k :: 0 <= k < |s.links| ==> s.links[k].capacity > 0
    requires Unbroken(Run(s, schedule)) && !Run(s, schedule).links[0].fin
    requires |Run(s, schedule).sent| - |Run(s, schedule).received| < Buffering(s, s.Last())
    ensures !SendBlocked(Run(s, schedule))
  {
    FreshInv(s);
    RunKeepsInv(s, schedule);
    RunKeepsCapacity(s, schedule);
    var t := Run(s, schedule);
    SentIsAccounted(t);
    hide Run, Runs, Fresh, SendBlocked, Jammed, Upstream, Whole;
    if SendBlocked(t) {
      BlockedIffJammed(t);
      JamSize(t, t.Last());
      SameBuffering(s, t, s.Last());
    }
  }

  lemma SentIsAccounted(s: System)
    requires Inv(s) && Unbroken(s)
    ensures |s.sent| - |s.received| == |Upstream(s, s.Last())|
  {
    hide Upstream, Whole, Orderly;
  }

  lemma {:induction false} RunKeepsCapacity(s: System, schedule: seq<Action>)
    requires s.Shaped() && Runs(s, schedule)
    ensures |Run(s, schedule).links| == |s.links|
    ensures forall l :: 0 <= l < |s.links| ==> Run(s, schedule).links[l].capacity == s.links[l].capacity
    decreases |schedule|
  {
    if schedule != [] {
      RunKeepsCapacity(Apply(s, schedule[0]), schedule[1..]);
    }
  }

  lemma {:induction false} SameBuffering(s: System, t: System, l: nat)
    requires s.Shaped() && t.Shaped() && |s.links| == |t.links| && l < |s.links|
    requires forall k :: 0 <= k < |s.links| ==> s.links[k].capacity == t.links[k].capacity
    ensures Buffering(s, l) == Buffering(t, l)
  {
    if l > 0 {
      SameBuffering(s, t, l - 1);
    }
  }

  // --- A round trip, from its first byte to its last ---------------------------

  lemma {:induction false} CleanEndHasNothingBehind(s: System, w: nat)
    requires Inv(s) && w < |s.workers| && Whole(s, w) && s.workers[w].phase == Ended(true)
    ensures Behind(s, w) == []
  {
    assert WorkerOrderly(s, w);
    EofMeansDrained(s, w);
  }

  /** While bytes are outstanding some thread can pass them on, or the client can
      read them. */
  lemma {:induction false} OutstandingCanMove(s: System, l: nat) returns (a: Action)
    requires Inv(s) && l < |s.links| && Whole(s, l) && Upstream(s, l) != []
    requires forall k :: 0 <= k < |s.links| ==> s.links[k].capacity > 0
    requires l == s.Last() || s.links[l].queue == []
    ensures Enabled(s, a) && Draining(a)
  {
    hide Upstream, Behind;
    if s.links[l].queue != [] {
      a := ClientRecv(1);
    } else {
      BytesAreBehind(s, l);
      var w := l - 1;
      WorkerHasBytes(s, w);
      hide *;
      if s.workers[w].phase == Sending {
        a := WorkerSend(w, 1);
      } else if s.links[w].queue != [] {
        a := WorkerRecv(w, 1);
      } else {
        a := OutstandingCanMove(s, w);
      }
    }
  }

  lemma BytesAreBehind(s: System, l: nat)
    requires s.Shaped() && l < |s.links| && Upstream(s, l) != [] && s.links[l].queue == []
    ensures l > 0 && Upstream(s, l) == Behind(s, l - 1)
  {
    hide Behind;
  }

  /** Behind an empty link with bytes further up: a worker that sends, or reads, or has
      nothing of its own. */
  lemma {:induction false} WorkerHasBytes(s: System, w: nat)
    requires Inv(s) && w < |s.workers| && Whole(s, w + 1) && Upstream(s, w + 1) != []
    requires s.links[w + 1].queue == []
    ensures Whole(s, w)
    ensures s.workers[w].phase == Sending && s.links[w + 1].capacity > 0 ==>
              Enabled(s, WorkerSend(w, 1)) && Draining(WorkerSend(w, 1))
    ensures s.workers[w].phase != Sending ==> Upstream(s, w) != []
    ensures s.workers[w].phase != Sending && s.links[w].queue != [] ==>
              Enabled(s, WorkerRecv(w, 1)) && Draining(WorkerRecv(w, 1))
  {
    hide Upstream, Behind, Conserved;
    BytesAreBehind(s, w + 1);
    HeldOrBelow(s, w);
    assert WorkerOrderly(s, w);
    if s.workers[w].phase == Ended(true) { CleanEndHasNothingBehind(s, w); }
  }

  lemma HeldOrBelow(s: System, w: nat)
    requires s.Shaped() && w < |s.workers| && Behind(s, w) != []
    ensures s.workers[w].phase != Ended(false) && (s.workers[w].held == [] ==> Upstream(s, w) != [])
  {
    hide Upstream;
  }

  /** What may happen while the client is in a round trip that ends with `total`
      sent: it sends the pieces that are left, and reads only when none is; the
      threads do what they do, and nothing fails. */
  predicate InRoundtrip(s: System, total: Bytes, a: Action) {
    match a
    case ClientSend(data) => s.sent + data <= total
    case ClientRecv(_) => s.sent == total
    case WorkerRecv(_, _) => true
    case WorkerSend(_, _) => true
    case WorkerEof(_) => true
    case _ => false
  }

  ghost predicate RoundtripRuns(s: System, total: Bytes, schedule: seq<Action>)
    requires s.Shaped()
    decreases |schedule|
  {
    schedule == []
    || (Enabled(s, schedule[0]) && InRoundtrip(s, total, schedule[0])
        && RoundtripRuns(Apply(s, schedule[0]), total, schedule[1..]))
  }

  /** Nothing more can happen in this round trip. */
  ghost predicate AtRest(s: System, total: Bytes)
    requires s.Shaped()
  {
    forall a: Action :: InRoundtrip(s, total, a) ==> !Enabled(s, a)
  }

  /** A relay in the middle of such a round trip. */
  ghost predicate Underway(s: System, total: Bytes) {
    && Inv(s) && Unbroken(s) && !s.links[0].fin && s.sent <= total
    && (forall k :: 0 <= k < |s.links| ==> s.links[k].capacity > 0)
  }

  /** What is not read back yet fits the relay's buffering. */
  ghost predicate Fits(s: System, total: Bytes)
    requires s.Shaped()
  {
    |total| - |s.received| <= Buffering(s, s.Last())
  }

  /** Every byte that is not sent yet will have to cross the whole chain. */
  ghost function Effort(s: System, total: Bytes): int
    requires s.Shaped()
  {
    Work(s, s.Last()) + (2 * s.Last() + 2) * (|total| - |s.sent|)
  }

  /** More bytes in the first link are more work, by their way through the chain. */
  lemma {:induction false} SendAddsWork(s: System, t: System, data: Bytes, l: nat)
    requires s.Shaped() && t.Shaped() && |s.links| == |t.links| && l < |s.links|
    requires t.links == s.links[0 := Push(s.links[0], data)] && t.workers == s.workers
    ensures Work(t, l) == Work(s, l) + (2 * s.Last() + 1) * |data|
  {
    if l == 0 {
      Spread(2 * s.Last() + 1, |s.links[0].queue|, |data|);
    } else {
      SendAddsWork(s, t, data, l - 1);
      assert t.links[l] == s.links[l];
    }
  }

  lemma Spread(c: int, n: int, m: int)
    ensures c * (n + m) == c * n + c * m
    ensures (c + 1) * (n - m) == (c + 1) * n - c * m - m
  {
  }

  lemma {:induction false} SendEffort(s: System, total: Bytes, data: Bytes)
    requires Underway(s, total) && Enabled(s, ClientSend(data)) && s.sent + data <= total
    ensures Effort(Apply(s, ClientSend(data)), total) < Effort(s, total)
  {
    var t := Apply(s, ClientSend(data));
    hide Inv, Unbroken, Buffering, Work;
    SendAddsWork(s, t, data, s.Last());
    Spread(2 * s.Last() + 1, |total| - |s.sent|, |data|);
    assert |t.sent| == |s.sent| + |data|;
  }

  lemma {:induction false} SendKeepsUnbroken(s: System, data: Bytes)
    requires Inv(s) && Enabled(s, ClientSend(data)) && Unbroken(s)
    ensures Unbroken(Apply(s, ClientSend(data)))
  {
    hide Conserved, Orderly;
    Appended(s, Apply(s, ClientSend(data)), data, s.Last());
  }

  lemma {:induction false} StepStaysUnderway(s: System, total: Bytes, a: Action)
    requires Underway(s, total) && Enabled(s, a) && InRoundtrip(s, total, a)
    ensures Underway(Apply(s, a), total) && Effort(Apply(s, a), total) < Effort(s, total)
    ensures Fits(s, total) ==> Fits(Apply(s, a), total)
  {
    var t := Apply(s, a);
    StepKeepsInv(s, a);
    SameCapacities(s, a);
    SameBuffering(s, t, s.Last());
    if a.ClientSend? {
      SendKeepsUnbroken(s, a.data);
      SendEffort(s, total, a.data);
    } else {
      DrainingDecreases(s, a);
    }
    hide Inv, Unbroken, Buffering, Work;
  }

  lemma SameCapacities(s: System, a: Action)
    requires s.Shaped() && Enabled(s, a)
    ensures |Apply(s, a).links| == |s.links|
    ensures forall l :: 0 <= l < |s.links| ==> Apply(s, a).links[l].capacity == s.links[l].capacity
  {
  }

  /** A round trip at rest has everything back. */
  lemma {:induction false} RestIsDone(s: System, total: Bytes)
    requires Underway(s, total) && Fits(s, total) && AtRest(s, total)
    ensures s.received == s.sent == total
  {
    if s.sent != total {
      RestIsBlocked(s, total);
      hide AtRest, SendBlocked, Jammed;
      BlockedIffJammed(s);
      JamSize(s, s.Last());
    } else if Upstream(s, s.Last()) != [] {
      var a := SomeoneHasBytes(s, total);
    }
  }

  lemma {:induction false} RestIsBlocked(s: System, total: Bytes)
    requires s.Shaped() && s.sent <= total && s.sent != total && AtRest(s, total)
    ensures SendBlocked(s)
  {
    forall a: Action | a.ClientSend? || a.WorkerRecv? || a.WorkerSend? || a.WorkerEof? ensures !Enabled(s, a) {
      if a.ClientSend? {
        var next := ClientSend([total[|s.sent|]]);
        assert InRoundtrip(s, total, next);
        assert !Enabled(s, next);
      } else {
        assert InRoundtrip(s, total, a);
      }
    }
  }

  lemma {:induction false} SomeoneHasBytes(s: System, total: Bytes) returns (a: Action)
    requires Underway(s, total) && s.sent == total && Upstream(s, s.Last()) != []
    ensures Enabled(s, a) && InRoundtrip(s, total, a)
  {
    a := OutstandingCanMove(s, s.Last());
  }

  /** Every way the bytes can go is finite; and where it can go no further, a payload
      that fits the relay's buffering has been read back, exactly as it was sent. */
  lemma {:induction false} RoundtripCompletes(s: System, total: Bytes, schedule: seq<Action>)
    requires Underway(s, total) && RoundtripRuns(s, total, schedule)
    ensures Runs(s, schedule) && |schedule| <= Effort(s, total)
    ensures Fits(s, total) && AtRest(Run(s, schedule), total) ==>
              Run(s, schedule).received == Run(s, schedule).sent == total
    decreases |schedule|
  {
    if schedule == [] {
      if Fits(s, total) && AtRest(s, total) { RestIsDone(s, total); }
      EffortIsNatural(s, total);
    } else {
      StepStaysUnderway(s, total, schedule[0]);
      hide Underway, Fits, Effort, AtRest, InRoundtrip;
      RoundtripCompletes(Apply(s, schedule[0]), total, schedule[1..]);
    }
  }

  /** And there is such a way, from wherever the round trip is. */
  lemma {:induction false} RestIsReachable(s: System, total: Bytes) returns (schedule: seq<Action>)
    requires Underway(s, total)
    ensures RoundtripRuns(s, total, schedule) && Runs(s, schedule) && AtRest(Run(s, schedule), total)
    decreases Effort(s, total)
  {
    if AtRest(s, total) {
      schedule := [];
    } else {
      var a: Action :| InRoundtrip(s, total, a) && Enabled(s, a);
      StepStaysUnderway(s, total, a);
      EffortIsNatural(s, total);
      hide Underway, Effort, AtRest, InRoundtrip, Enabled;
      var rest := RestIsReachable(Apply(s, a), total);
      schedule := [a] + rest;
      assert schedule[1..] == rest;
    }
  }

  lemma EffortIsNatural(s: System, total: Bytes)
    requires s.Shaped() && s.sent <= total
    ensures Effort(s, total) >= 0
  {
    NonNegative(2 * s.Last() + 2, |total| - |s.sent|);
  }

  lemma NonNegative(a: nat, b: nat)
    ensures a * b >= 0
  {
  }

  /** A fresh relay can start on any payload. */
  lemma {:induction false} FreshIsUnderway(s: System, payload: Bytes)
    requires Fresh(s)
    requires forall k :: 0 <= k < |s.links| ==> s.links[k].capacity > 0
    ensures Underway(s, payload)
  {
    FreshInv(s);
  }

  // --- A payload that does not fit -----------------------------------------------

  /** The client sends and the threads pass on what they can, but every read of a
      thread gets a single byte, and the client does not read. */
  predicate Stuffing(s: System, total: Bytes, a: Action) {
    match a
    case ClientSend(data) => s.sent + data <= total
    case WorkerRecv(_, count) => count == 1
    case WorkerSend(_, _) => true
    case _ => false
  }

  /** Nothing was read back, and no thread holds more than one byte. */
  ghost predicate Stuffed(s: System) {
    s.received == [] && forall w :: 0 <= w < |s.workers| ==> |s.workers[w].held| <= 1
  }

  lemma StuffingStays(s: System, total: Bytes, a: Action)
    requires s.Shaped() && Stuffed(s) && Enabled(s, a) && Stuffing(s, total, a)
    ensures Stuffed(Apply(s, a)) && InRoundtrip(s, total, a)
  {
  }

  /** Such a relay holds no more than its buffering. */
  lemma {:induction false} StuffedHolds(s: System, l: nat)
    requires s.Shaped() && Stuffed(s) && l < |s.links|
    requires forall k :: 0 <= k < |s.links| ==> |s.links[k].queue| <= s.links[k].capacity
    ensures |Upstream(s, l)| <= Buffering(s, l)
  {
    hide Upstream, Behind;
    QueueAndBehind(s, l);
    if l > 0 {
      HeldAndBelow(s, l - 1);
      StuffedHolds(s, l - 1);
    }
  }

  lemma QueueAndBehind(s: System, l: nat)
    requires s.Shaped() && l < |s.links|
    ensures |Upstream(s, l)| <= |s.links[l].queue| + (if l == 0 then 0 else |Behind(s, l - 1)|)
  {
    hide Behind;
  }

  lemma HeldAndBelow(s: System, w: nat)
    requires s.Shaped() && w < |s.workers|
    ensures |Behind(s, w)| <= |s.workers[w].held| + |Upstream(s, w)|
  {
    hide Upstream;
  }

  /** When it can take no more of a larger payload, nothing at all can happen. */
  lemma {:induction false} StuffedIsBlocked(s: System, total: Bytes)
    requires Underway(s, total) && Stuffed(s) && !Fits(s, total)
    requires forall a: Action :: Stuffing(s, total, a) ==> !Enabled(s, a)
    ensures AtRest(s, total) && s.sent != total
  {
    SentIsUpstream(s);
    forall a: Action | InRoundtrip(s, total, a) ensures !Enabled(s, a) {
      if a.WorkerRecv? {
        OneByteIfAny(s, a.worker, a.count);
        assert Stuffing(s, total, WorkerRecv(a.worker, 1));
      } else if a.WorkerEof? {
        NoEofBeforeHalfClose(s, a.worker);
      } else {
        hide Inv, Unbroken, Buffering, Enabled;
      }
    }
  }

  lemma {:induction false} SentIsUpstream(s: System)
    requires Inv(s) && Unbroken(s) && Stuffed(s)
    ensures |s.sent| <= Buffering(s, s.Last())
  {
    StuffedHolds(s, s.Last());
    assert s.sent == [] + Upstream(s, s.Last()) == Upstream(s, s.Last());
  }

  lemma OneByteIfAny(s: System, w: nat, count: nat)
    requires s.Shaped()
    ensures Enabled(s, WorkerRecv(w, count)) ==> Enabled(s, WorkerRecv(w, 1))
  {
  }

  lemma {:induction false} NoEofBeforeHalfClose(s: System, w: nat)
    requires Inv(s) && Unbroken(s) && !s.links[0].fin
    ensures !Enabled(s, WorkerEof(w))
  {
    if w < |s.workers| {
      WholeBelow(s, w, s.Last());
      if AtEof(s.links[w]) { EofMeansDrained(s, w); }
    }
  }

  lemma {:induction false} WholeBelow(s: System, l: nat, m: nat)
    requires s.Shaped() && l <= m < |s.links| && Whole(s, m)
    ensures Whole(s, l)
  {
    if l < m { WholeBelow(s, l, m - 1); }
  }

  lemma {:induction false} StuffToTheEnd(s: System, total: Bytes) returns (schedule: seq<Action>)
    requires Underway(s, total) && Stuffed(s) && !Fits(s, total)
    ensures RoundtripRuns(s, total, schedule) && Runs(s, schedule)
    ensures var t := Run(s, schedule); AtRest(t, total) && t.received == [] && t.sent != total
    decreases Effort(s, total)
  {
    if forall a: Action :: Stuffing(s, total, a) ==> !Enabled(s, a) {
      schedule := [];
      StuffedIsBlocked(s, total);
    } else {
      var a: Action :| Stuffing(s, total, a) && Enabled(s, a);
      StuffingStays(s, total, a);
      StillTooLarge(s, total, a);
      StepStaysUnderway(s, total, a);
      EffortIsNatural(s, total);
      hide Underway, Fits, Effort, AtRest, InRoundtrip, Enabled, Stuffing, Stuffed;
      var rest := StuffToTheEnd(Apply(s, a), total);
      schedule := [a] + rest;
      assert schedule[1..] == rest;
    }
  }

  lemma StillTooLarge(s: System, total: Bytes, a: Action)
    requires s.Shaped() && Enabled(s, a) && Stuffing(s, total, a) && !Fits(s, total)
    ensures !Fits(Apply(s, a), total)
  {
    SameCapacities(s, a);
    SameBuffering(s, Apply(s, a), s.Last());
  }

  /** A round trip that hangs: of a payload larger than the buffering, so much can be
      sent without coming back that nothing more can happen, and the client, which
      still has to send, reads nothing. */
  lemma {:induction false} LargePayloadCanHang(s: System, payload: Bytes) returns (schedule: seq<Action>)
    requires Fresh(s) && |payload| > Buffering(s, s.Last())
    requires forall k :: 0 <= k < |s.links| ==> s.links[k].capacity > 0
    ensures RoundtripRuns(s, payload, schedule) && Runs(s, schedule)
    ensures var t := Run(s, schedule); AtRest(t, payload) && t.received == [] && t.sent != payload
  {
    FreshIsUnderway(s, payload);
    schedule := StuffToTheEnd(s, payload);
  }

  /** `roundtrip` always gets its payload back, whatever the threads do and however the
      bytes arrive, exactly when the payload fits the relay's buffering. */
  lemma {:induction false} RoundtripAlwaysCompletesIff(s: System, payload: Bytes)
    requires Fresh(s) && forall k :: 0 <= k < |s.links| ==> s.links[k].capacity > 0
    ensures (forall schedule :: RoundtripRuns(s, payload, schedule) ==>
               Runs(s, schedule)
               && (AtRest(Run(s, schedule), payload) ==> Run(s, schedule).received == payload))
       <==> |payload| <= Buffering(s, s.Last())
  {
    FreshIsUnderway(s, payload);
    hide Underway, AtRest, RoundtripRuns, Runs, Run;
    if |payload| <= Buffering(s, s.Last()) {
      forall schedule | RoundtripRuns(s, payload, schedule)
        ensures Runs(s, schedule)
             && (AtRest(Run(s, schedule), payload) ==> Run(s, schedule).received == payload)
      {
        RoundtripCompletes(s, payload, schedule);
      }
    } else {
      var schedule := LargePayloadCanHang(s, payload);
      assert RoundtripRuns(s, payload, schedule) && Run(s, schedule).received != payload;
    }
  }
}
