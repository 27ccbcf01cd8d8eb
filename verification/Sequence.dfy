/** TCP sequence-space bookkeeping: two trackers at the ends of a connection. */
module Sequence {

  const MAX_SEQ: nat := 0xFFFF_FFFF
  const SPACE: nat := 0x1_0000_0000

  // --- seq32 -------------------------------------------------------------------

  /** `value & mask` for any integer, in two's complement, and a mask that is not
      negative: bit by bit, from the lowest. */
  function And(value: int, mask: nat): nat
    decreases mask
  {
    if mask == 0 then 0 else (value % 2) * (mask % 2) + 2 * And(value / 2, mask / 2)
  }

  function Pow2(n: nat): (p: nat)
    ensures p > 0
  {
    if n == 0 then 1 else 2 * Pow2(n - 1)
  }

  function Seq32(value: int): nat {
    And(value, MAX_SEQ)
  }

  lemma MulSub(m: int, q: int, p: int)
    ensures m * (q - p) == m * q - m * p
  {
  }

  lemma MulGe(m: nat, k: int)
    requires k >= 1
    ensures m * k >= m
  {
  }

  lemma DivMod(value: int, m: nat)
    requires m > 0
    ensures value == m * (value / m) + value % m && 0 <= value % m < m
  {
  }

  lemma Remainder(value: int, m: nat, q: int, r: int)
    requires m > 0 && 0 <= r < m && value == m * q + r
    ensures value % m == r
  {
    DivMod(value, m);
    var p, s := value / m, value % m;
    assert value % m == s;
    MulSub(m, q, p);
    if q > p { MulGe(m, q - p); }
    if q < p { MulSub(m, p, q); MulGe(m, p - q); }
  }

  lemma DoubleProduct(m: int, q: int)
    ensures 2 * (m * q) == (2 * m) * q
  {
  }

  lemma ModDouble(value: int, m: nat)
    requires m > 0
    ensures value % (2 * m) == value % 2 + 2 * ((value / 2) % m)
  {
    var h := value / 2;
    var q, r := h / m, h % m;
    DivMod(h, m);
    DoubleProduct(m, q);
    Remainder(value, 2 * m, q, 2 * r + value % 2);
  }

  lemma MaskNothing(value: int)
    ensures And(value, Pow2(0) - 1) == value % Pow2(0)
  {
  }

  lemma Pow2Doubles(n: nat)
    requires n > 0
    ensures Pow2(n) == 2 * Pow2(n - 1)
  {
  }

  /** Masking with n ones is reduction modulo 2^n, negative numbers included. */
  lemma {:induction false} MaskIsModulo(value: int, n: nat)
    ensures And(value, Pow2(n) - 1) == value % Pow2(n)
    decreases n
  {
    hide And, Pow2;
    if n == 0 {
      MaskNothing(value);
    } else {
      Pow2Doubles(n);
      MaskIsModulo(value / 2, n - 1);
      MaskStep(value, Pow2(n - 1));
    }
  }

  lemma MaskStep(value: int, half: nat)
    requires half > 0 && And(value / 2, half - 1) == (value / 2) % half
    ensures And(value, 2 * half - 1) == value % (2 * half)
  {
    AndOnes(value, half);
    ModDouble(value, half);
  }

  lemma AndOnes(value: int, half: nat)
    requires half > 0
    ensures And(value, 2 * half - 1) == value % 2 + 2 * And(value / 2, half - 1)
  {
    var mask := 2 * half - 1;
    assert mask % 2 == 1 && mask / 2 == half - 1;
    assert (value % 2) * 1 == value % 2;
  }

  lemma {:induction false} Seq32IsModulo(value: int)
    ensures Seq32(value) == value % SPACE
  {
    assert Pow2(8) == 0x100;
    assert Pow2(16) == 0x1_0000;
    assert Pow2(24) == 0x100_0000;
    assert Pow2(32) == SPACE;
    hide And, Pow2;
    MaskIsModulo(value, 32);
  }

  // --- the tracker ------------------------------------------------------------------

  datatype Segment = Segment(length: nat, syn: bool, fin: bool) {
    /** What the tracker advances by. */
    function Advance(): nat {
      length + if syn || fin then 1 else 0
    }

    /** The segment's length in sequence space, section 3.4 of RFC 9293. */
    function Occupies(): nat {
      length + (if syn then 1 else 0) + (if fin then 1 else 0)
    }
  }

  class TCPSequenceTracker {
    var seqNumber: int
    var ackNumber: int

    constructor (isn: int)
      ensures seqNumber == isn && ackNumber == 0
    {
      seqNumber, ackNumber := isn, 0;
    }

    method OnSend(payloadLength: nat, syn: bool, fin: bool) returns (sent: int)
      modifies this`seqNumber
      ensures sent == old(seqNumber)
      ensures seqNumber == (old(seqNumber) + Segment(payloadLength, syn, fin).Advance()) % SPACE
    {
      hide Seq32;
      sent := seqNumber;
      Seq32IsModulo(seqNumber + payloadLength + (if syn || fin then 1 else 0));
      seqNumber := Seq32(seqNumber + payloadLength + (if syn || fin then 1 else 0));
    }

    method OnReceive(remoteSeq: int, payloadLength: nat, syn: bool, fin: bool)
      modifies this`ackNumber
      ensures ackNumber == (remoteSeq + Segment(payloadLength, syn, fin).Advance()) % SPACE
    {
      hide Seq32;
      Seq32IsModulo(remoteSeq + payloadLength + (if syn || fin then 1 else 0));
      ackNumber := Seq32(remoteSeq + payloadLength + (if syn || fin then 1 else 0));
    }
  }

  // --- conversations -------------------------------------------------------------------

  /** One segment, from the first peer or from the second. */
  datatype Step = Step(fromFirst: bool, segment: Segment)

  /** All sequence space one side has used. */
  function Used(steps: seq<Step>, first: bool): nat {
    if steps == [] then 0
    else
      var last := steps[|steps| - 1];
      Used(steps[..|steps| - 1], first) + if last.fromFirst == first then last.segment.Advance() else 0
  }

  predicate Spoke(steps: seq<Step>, first: bool) {
    exists i :: 0 <= i < |steps| && steps[i].fromFirst == first
  }

  /** Where a side's sequence number is after a conversation. */
  function Position(isn: int, steps: seq<Step>, first: bool): int {
    if Spoke(steps, first) then (isn + Used(steps, first)) % SPACE else isn
  }

  lemma ModAgain(a: int, b: int)
    ensures (a % SPACE + b) % SPACE == (a + b) % SPACE
  {
    var q := a / SPACE;
    assert a == SPACE * q + a % SPACE;
    var r := (a % SPACE + b) % SPACE;
    var p := (a % SPACE + b) / SPACE;
    assert a + b == SPACE * (q + p) + r;
    Remainder(a + b, SPACE, q + p, r);
  }

  lemma {:induction false} PositionMoves(isn: int, steps: seq<Step>, step: Step, first: bool)
    ensures Position(isn, steps + [step], first)
         == if step.fromFirst == first then (Position(isn, steps, first) + step.segment.Advance()) % SPACE
            else Position(isn, steps, first)
  {
    var more := steps + [step];
    assert more[..|steps|] == steps;
    assert Spoke(more, first) <==> Spoke(steps, first) || step.fromFirst == first by {
      assert more[|steps|] == step;
      assert forall i :: 0 <= i < |steps| ==> more[i] == steps[i];
    }
    if Spoke(steps, first) {
      ModAgain(isn + Used(steps, first), step.segment.Advance());
    } else {
      SilentUsesNothing(steps, first);
    }
  }

  lemma {:induction false} SilentUsesNothing(steps: seq<Step>, first: bool)
    requires !Spoke(steps, first)
    ensures Used(steps, first) == 0
  {
    if steps != [] {
      var rest := steps[..|steps| - 1];
      assert forall i :: 0 <= i < |rest| ==> rest[i] == steps[i];
      SilentUsesNothing(rest, first);
    }
  }

  /** Two trackers over any conversation that is delivered in order: each side's
      sequence number is where the arithmetic says, and each side acknowledges
      exactly the other's sequence number once the other has spoken. */
  method Converse(first: TCPSequenceTracker, second: TCPSequenceTracker, steps: seq<Step>)
    requires first != second
    modifies first, second
    ensures first.seqNumber == Position(old(first.seqNumber), steps, true)
    ensures second.seqNumber == Position(old(second.seqNumber), steps, false)
    ensures second.ackNumber == if Spoke(steps, true) then first.seqNumber else old(second.ackNumber)
    ensures first.ackNumber == if Spoke(steps, false) then second.seqNumber else old(first.ackNumber)
  {
    for i := 0 to |steps|
      invariant first.seqNumber == Position(old(first.seqNumber), steps[..i], true)
      invariant second.seqNumber == Position(old(second.seqNumber), steps[..i], false)
      invariant second.ackNumber == if Spoke(steps[..i], true) then first.seqNumber else old(second.ackNumber)
      invariant first.ackNumber == if Spoke(steps[..i], false) then second.seqNumber else old(first.ackNumber)
    {
      var step := steps[i];
      assert steps[..i + 1] == steps[..i] + [step];
      PositionMoves(old(first.seqNumber), steps[..i], step, true);
      PositionMoves(old(second.seqNumber), steps[..i], step, false);
      SpokeMoves(steps[..i], step, true);
      SpokeMoves(steps[..i], step, false);
      hide Position, Spoke, Segment.Advance;
      var segment := step.segment;
      if step.fromFirst {
        var sent := first.OnSend(segment.length, segment.syn, segment.fin);
        second.OnReceive(sent, segment.length, segment.syn, segment.fin);
      } else {
        var sent := second.OnSend(segment.length, segment.syn, segment.fin);
        first.OnReceive(sent, segment.length, segment.syn, segment.fin);
      }
    }
    assert steps[..|steps|] == steps;
  }

  lemma SpokeMoves(steps: seq<Step>, step: Step, first: bool)
    ensures Spoke(steps + [step], first) <==> Spoke(steps, first) || step.fromFirst == first
  {
    var more := steps + [step];
    assert more[|steps|] == step;
    assert forall i :: 0 <= i < |steps| ==> more[i] == steps[i];
  }

  // --- against the standard ---------------------------------------------------------------

  function Occupied(steps: seq<Step>, first: bool): nat {
    if steps == [] then 0
    else
      var last := steps[|steps| - 1];
      Occupied(steps[..|steps| - 1], first) + if last.fromFirst == first then last.segment.Occupies() else 0
  }

  /** How many of a side's segments carry both SYN and FIN. */
  function Both(steps: seq<Step>, first: bool): nat {
    if steps == [] then 0
    else
      var last := steps[|steps| - 1];
      Both(steps[..|steps| - 1], first)
      + if last.fromFirst == first && last.segment.syn && last.segment.fin then 1 else 0
  }

  lemma {:induction false} ShortByBoth(steps: seq<Step>, first: bool)
    ensures Occupied(steps, first) == Used(steps, first) + Both(steps, first)
  {
    if steps != [] { ShortByBoth(steps[..|steps| - 1], first); }
  }

  lemma SameResidue(a: int, b: nat)
    ensures a % SPACE == (a + b) % SPACE <==> b % SPACE == 0
  {
    ModAgain(a, b);
    ModAgain(b, a % SPACE);
    if b % SPACE == 0 {
      assert (b % SPACE + a % SPACE) % SPACE == a % SPACE;
    }
  }

  /** The tracker's arithmetic is the standard's exactly when the number of segments
      that carried both SYN and FIN is a multiple of 2^32; a single one is enough to
      be wrong. */
  lemma {:induction false} AgreesWithStandardIff(isn: int, steps: seq<Step>, first: bool)
    requires Spoke(steps, first)
    ensures Position(isn, steps, first) == (isn + Occupied(steps, first)) % SPACE <==> Both(steps, first) % SPACE == 0
  {
    ShortByBoth(steps, first);
    SameResidue(isn + Used(steps, first), Both(steps, first));
  }

  lemma SynFinIsShort()
    ensures var steps := [Step(true, Segment(0, true, true))];
            Position(0, steps, true) == 1 && (0 + Occupied(steps, true)) % SPACE == 2
  {
    var steps := [Step(true, Segment(0, true, true))];
    assert steps[0].fromFirst;
    assert Used(steps, true) == 1 && Occupied(steps, true) == 2;
  }
}
