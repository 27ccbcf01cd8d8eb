/**
 Turning the bytes of a growing file into complete text lines: UTF-8 decoding with
 replacement, line splitting, and the incremental reader built on them.
 */
module Lines {
  import opened Basics

  /** Decoded text, as code points. */
  type Text = seq<int>

  const LF := 10
  const CR := 13
  const REPLACEMENT := 0xFFFD

  // --- UTF-8 with errors="replace" ------------------------------------------

  /** Length of the sequence a lead byte announces; 0 for a byte that cannot lead. */
  function Announced(lead: byte): nat {
    if lead < 0x80 then 1
    else if 0xC2 <= lead <= 0xDF then 2
    else if 0xE0 <= lead <= 0xEF then 3
    else if 0xF0 <= lead <= 0xF4 then 4
    else 0
  }

  /** Whether `b` may stand at offset `k` of a sequence led by `lead`. */
  predicate Continues(lead: byte, k: nat, b: byte) {
    if k != 1 then 0x80 <= b <= 0xBF
    else if lead == 0xE0 then 0xA0 <= b <= 0xBF
    else if lead == 0xED then 0x80 <= b <= 0x9F
    else if lead == 0xF0 then 0x90 <= b <= 0xBF
    else if lead == 0xF4 then 0x80 <= b <= 0x8F
    else 0x80 <= b <= 0xBF
  }

  /** How many bytes at the front belong together: a whole character, or the
      longest valid beginning of one. */
  function Extent(data: Bytes, k: nat): (n: nat)
    requires 1 <= k <= |data|
    ensures k <= n <= |data|
    decreases |data| - k
  {
    if k < Announced(data[0]) && k < |data| && Continues(data[0], k, data[k]) then Extent(data, k + 1) else k
  }

  function CodePoint(unit: Bytes): int
    requires 1 <= |unit|
  {
    if |unit| != Announced(unit[0]) then REPLACEMENT
    else if |unit| == 1 then unit[0]
    else if |unit| == 2 then (unit[0] - 0xC0) * 64 + (unit[1] - 0x80)
    else if |unit| == 3 then (unit[0] - 0xE0) * 4096 + (unit[1] - 0x80) * 64 + (unit[2] - 0x80)
    else if |unit| == 4 then
      (unit[0] - 0xF0) * 262144 + (unit[1] - 0x80) * 4096 + (unit[2] - 0x80) * 64 + (unit[3] - 0x80)
    else REPLACEMENT
  }

  function Decode(data: Bytes): Text
    decreases |data|
  {
    if data == [] then []
    else
      var n := Extent(data, 1);
      [CodePoint(data[..n])] + Decode(data[n..])
  }

  /** A chunk that stops at a line break. */
  predicate WholeLines(data: Bytes) {
    data == [] || data[|data| - 1] == LF
  }

  /** No character reaches across a line feed, so what follows one does not matter. */
  lemma {:induction false} ExtentStopsAtLf(a: Bytes, b: Bytes, k: nat)
    requires 1 <= k <= |a| && a[|a| - 1] == LF && (k < |a| || k == Announced(a[0]))
    ensures Extent(a + b, k) == Extent(a, k)
    ensures Extent(a, k) < |a| || Extent(a, k) == k
    decreases |a| - k
  {
    if k < Announced(a[0]) && k < |a| && Continues(a[0], k, a[k]) {
      ExtentStopsAtLf(a, b, k + 1);
    }
  }

  lemma {:induction false} DecodeDistributes(a: Bytes, b: Bytes)
    requires WholeLines(a)
    ensures Decode(a + b) == Decode(a) + Decode(b)
    decreases |a|
  {
    if a == [] {
      assert a + b == b;
    } else {
      ExtentStopsAtLf(a, b, 1);
      var n := Extent(a, 1);
      assert (a + b)[..n] == a[..n] && (a + b)[n..] == a[n..] + b;
      DecodeDistributes(a[n..], b);
      DecodeAfterFirst(a, a + b, Decode(b), n);
    }
  }

  lemma {:induction false} DecodeAfterFirst(a: Bytes, c: Bytes, more: Text, n: nat)
    requires a != [] && c != [] && n == Extent(a, 1) == Extent(c, 1) && c[..n] == a[..n]
    requires Decode(c[n..]) == Decode(a[n..]) + more
    ensures Decode(c) == Decode(a) + more
  {
    hide Extent, CodePoint;
    assert [CodePoint(a[..n])] + (Decode(a[n..]) + more) == ([CodePoint(a[..n])] + Decode(a[n..])) + more;
  }

  lemma {:induction false} DecodeEndsInLf(a: Bytes)
    requires WholeLines(a) && a != []
    ensures Decode(a) != [] && Decode(a)[|Decode(a)| - 1] == LF
    decreases |a|
  {
    ExtentStopsAtLf(a, [], 1);
    var n := Extent(a, 1);
    if n == |a| {
      assert a[..n] == a && a[n..] == [];
    } else {
      DecodeEndsInLf(a[n..]);
    }
  }

  // --- splitlines -----------------------------------------------------------

  /** Every character that ends a line of text. */
  predicate Breaks(c: int) {
    c == LF || c == CR || c == 0x0B || c == 0x0C || 0x1C <= c <= 0x1E || c == 0x85 || c == 0x2028 || c == 0x2029
  }

  /** Position of the first line break, or the length if there is none. */
  function FirstBreak(text: Text): (n: nat)
    ensures n <= |text|
    ensures n < |text| ==> Breaks(text[n])
    ensures forall i :: 0 <= i < n ==> !Breaks(text[i])
  {
    if text == [] || Breaks(text[0]) then 0 else 1 + FirstBreak(text[1..])
  }

  /** How many characters the break at position `n` takes; CR LF is one break. */
  function BreakLength(text: Text, n: nat): nat
    requires n < |text|
  {
    if text[n] == CR && n + 1 < |text| && text[n + 1] == LF then 2 else 1
  }

  function SplitLines(text: Text): seq<Text>
    decreases |text|
  {
    if text == [] then []
    else
      var n := FirstBreak(text);
      if n == |text| then [text] else [text[..n]] + SplitLines(text[n + BreakLength(text, n)..])
  }

  lemma {:induction false} FirstBreakInFront(a: Text, b: Text)
    requires a != [] && a[|a| - 1] == LF
    ensures FirstBreak(a + b) == FirstBreak(a) < |a|
  {
    assert (a + b)[|a| - 1] == LF;
    assert forall i :: 0 <= i < |a| ==> (a + b)[i] == a[i];
  }

  /** What is left of a complete text after its first line is complete too. */
  lemma {:induction false} AfterFirstLine(a: Text, b: Text) returns (n: nat, k: nat)
    requires a != [] && a[|a| - 1] == LF
    ensures n == FirstBreak(a) == FirstBreak(a + b) && n < k <= |a|
    ensures k == n + BreakLength(a, n) == n + BreakLength(a + b, n)
    ensures (a + b)[..n] == a[..n] && (a + b)[k..] == a[k..] + b
    ensures a[k..] == [] || a[k..][|a[k..]| - 1] == LF
  {
    FirstBreakInFront(a, b);
    n := FirstBreak(a);
    k := n + BreakLength(a, n);
  }

  lemma {:induction false} SplitDistributes(a: Text, b: Text)
    requires a == [] || a[|a| - 1] == LF
    ensures SplitLines(a + b) == SplitLines(a) + SplitLines(b)
    decreases |a|
  {
    if a == [] {
      assert a + b == b;
    } else {
      var n, k := AfterFirstLine(a, b);
      SplitDistributes(a[k..], b);
      SplitAfterFirstLine(a, a + b, SplitLines(b), n, k);
    }
  }

  lemma {:induction false} SplitAfterFirstLine(a: Text, c: Text, more: seq<Text>, n: nat, k: nat)
    requires n == FirstBreak(a) == FirstBreak(c) && n < k <= |a| <= |c|
    requires k == n + BreakLength(a, n) == n + BreakLength(c, n)
    requires c[..n] == a[..n]
    requires SplitLines(c[k..]) == SplitLines(a[k..]) + more
    ensures SplitLines(c) == SplitLines(a) + more
  {
    hide *;
    FirstLineOff(a, n, k);
    FirstLineOff(c, n, k);
    ConsConcat(a[..n], SplitLines(a[k..]), more);
  }

  lemma ConsConcat(line: Text, lines: seq<Text>, more: seq<Text>)
    ensures [line] + (lines + more) == ([line] + lines) + more
  {
  }

  lemma {:induction false} FirstLineOff(text: Text, n: nat, k: nat)
    requires n == FirstBreak(text) < |text| && k == n + BreakLength(text, n)
    ensures SplitLines(text) == [text[..n]] + SplitLines(text[k..])
  {
    hide FirstBreak, BreakLength;
  }

  // --- blank lines ----------------------------------------------------------

  /** Characters that `strip` removes. */
  predicate Space(c: int) {
    || 9 <= c <= 13 || 0x1C <= c <= 0x20 || c == 0x85 || c == 0xA0 || c == 0x1680 || 0x2000 <= c <= 0x200A
    || c == 0x2028 || c == 0x2029 || c == 0x202F || c == 0x205F || c == 0x3000
  }

  /** Line feed, vertical tab, form feed, carriage return, the three information
      separators above the lowest, next line, and the two Unicode separators end a line;
      all of them are white space, and so are tab, that lowest separator, and the spaces. */
  lemma BreaksAndSpaces(c: int)
    ensures Breaks(c) <==> c in {0x0A, 0x0B, 0x0C, 0x0D, 0x1C, 0x1D, 0x1E, 0x85, 0x2028, 0x2029}
    ensures Space(c)
       <==> Breaks(c) || c in {0x09, 0x1F, 0x20, 0xA0, 0x1680, 0x2000, 0x2001, 0x2002, 0x2003, 0x2004, 0x2005, 0x2006,
                               0x2007, 0x2008, 0x2009, 0x200A, 0x202F, 0x205F, 0x3000}
  {
  }

  predicate Blank(line: Text) {
    forall i :: 0 <= i < |line| ==> Space(line[i])
  }

  function NonBlank(lines: seq<Text>): seq<Text> {
    if lines == [] then []
    else (if Blank(lines[0]) then [] else [lines[0]]) + NonBlank(lines[1..])
  }

  lemma {:induction false} NonBlankDistributes(a: seq<Text>, b: seq<Text>)
    ensures NonBlank(a + b) == NonBlank(a) + NonBlank(b)
  {
    if a == [] {
      assert a + b == b;
    } else {
      assert (a + b)[0] == a[0] && (a + b)[1..] == a[1..] + b;
      NonBlankDistributes(a[1..], b);
    }
  }

  /** A visible text without line breaks, terminated, is one line. */
  lemma {:induction false} SingleLine(text: Text)
    requires text != [] && !Space(text[0]) && forall i :: 0 <= i < |text| ==> !Breaks(text[i])
    ensures NonBlank(SplitLines(text + [LF])) == [text]
  {
    var line := text + [LF];
    assert line[|text|] == LF && forall i :: 0 <= i < |text| ==> line[i] == text[i];
    assert FirstBreak(line) == |text|;
    assert line[..|text|] == text && line[|text| + 1..] == [];
    assert SplitLines(line) == [text] + SplitLines([]) == [text];
    assert NonBlank([text]) == [text] + NonBlank([]);
  }

  /** The non-blank lines of some complete bytes, read in one go. */
  function LinesOf(data: Bytes): seq<Text> {
    NonBlank(SplitLines(Decode(data)))
  }

  /** Reading two complete chunks one after the other is reading them at once. */
  lemma {:induction false} LinesDistribute(a: Bytes, b: Bytes)
    requires WholeLines(a)
    ensures LinesOf(a + b) == LinesOf(a) + LinesOf(b)
  {
    DecodeDistributes(a, b);
    if a != [] { DecodeEndsInLf(a); }
    SplitDistributes(Decode(a), Decode(b));
    NonBlankDistributes(SplitLines(Decode(a)), SplitLines(Decode(b)));
  }

  // --- the incremental reader ------------------------------------------------

  /** Length of the part of the data that ends with its last line feed. */
  function CompleteLength(data: Bytes): (n: nat)
    ensures n <= |data|
    ensures WholeLines(data[..n])
    ensures forall i :: n <= i < |data| ==> data[i] != LF
    decreases |data|
  {
    if data == [] then 0
    else if data[|data| - 1] == LF then |data|
    else
      var n := CompleteLength(data[..|data| - 1]);
      assert data[..|data| - 1][..n] == data[..n];
      n
  }

  function Complete(data: Bytes): Bytes {
    data[..CompleteLength(data)]
  }

  /** `read_new_lines`: the complete lines from `offset` on and where they end. A
      missing file, an empty rest and a half-written line all yield nothing. */
  function ReadNewLines(file: Option<Bytes>, offset: nat): (r: (seq<Text>, nat)) {
    if file.None? then ([], offset)
    else
      var data := if offset <= |file.value| then file.value[offset..] else [];
      if data == [] then ([], offset)
      else if CompleteLength(data) == 0 then ([], offset)
      else (LinesOf(Complete(data)), offset + |Complete(data)|)
  }

  /** `later` is the same file after more was appended (or after it was created). */
  predicate Grew(file: Option<Bytes>, later: Option<Bytes>) {
    file.Some? ==> later.Some? && file.value <= later.value
  }

  function Content(file: Option<Bytes>): Bytes {
    if file.None? then [] else file.value
  }

  /** The complete part is the only one that ends a line with no line feed after it. */
  lemma {:induction false} CompleteIs(data: Bytes, n: nat)
    requires n <= |data| && WholeLines(data[..n])
    requires forall i :: n <= i < |data| ==> data[i] != LF
    ensures CompleteLength(data) == n
  {
    var m := CompleteLength(data);
    assert forall i :: 0 <= i < m ==> data[..m][i] == data[i];
    assert forall i :: 0 <= i < n ==> data[..n][i] == data[i];
  }

  lemma {:induction false} CompleteFrom(data: Bytes, offset: nat)
    requires offset <= |data| && WholeLines(data[..offset])
    ensures CompleteLength(data) == offset + CompleteLength(data[offset..])
    ensures data[..CompleteLength(data)] == data[..offset] + Complete(data[offset..])
  {
    var rest := data[offset..];
    var m := CompleteLength(rest);
    assert data[..offset + m] == data[..offset] + rest[..m];
    assert WholeLines(data[..offset + m]);
    forall i | offset + m <= i < |data| ensures data[i] != LF {
      assert data[i] == rest[i - offset];
    }
    CompleteIs(data, offset + m);
  }

  /** A reader at `offset` has been given exactly the complete lines before it. */
  ghost predicate Caught(file: Option<Bytes>, offset: nat, seen: seq<Text>) {
    && offset <= |Content(file)| && WholeLines(Content(file)[..offset])
    && seen == LinesOf(Content(file)[..offset])
  }

  /** One poll brings the reader up to the last line feed there is. */
  lemma {:induction false} PollCatchesUp(file: Option<Bytes>, offset: nat, seen: seq<Text>)
    requires Caught(file, offset, seen)
    ensures var (lines, next) := ReadNewLines(file, offset);
            offset <= next == CompleteLength(Content(file)) && Caught(file, next, seen + lines)
  {
    var data := Content(file);
    var rest := data[offset..];
    CompleteFrom(data, offset);
    if rest != [] && CompleteLength(rest) != 0 {
      LinesDistribute(data[..offset], Complete(rest));
    } else {
      assert seen + [] == seen;
    }
  }

  lemma CompleteGrows(a: Bytes, b: Bytes)
    requires a <= b
    ensures Complete(a) <= Complete(b)
  {
    var n, m := CompleteLength(a), CompleteLength(b);
    if n > 0 {
      assert a[..n][n - 1] == a[n - 1] == b[n - 1];
    }
  }

  /** A later poll from the same offset reads the same lines, and perhaps more. */
  lemma {:induction false} NewLinesGrow(file: Option<Bytes>, later: Option<Bytes>, offset: nat)
    returns (more: seq<Text>)
    requires Grew(file, later) && offset <= |Content(file)|
    ensures ReadNewLines(later, offset).0 == ReadNewLines(file, offset).0 + more
  {
    var a, b := Content(file)[offset..], Content(later)[offset..];
    CompleteGrows(a, b);
    var rest := Complete(b)[|Complete(a)|..];
    assert Complete(b) == Complete(a) + rest;
    LinesDistribute(Complete(a), rest);
    assert LinesOf([]) == [] && Complete([]) == [];
    more := LinesOf(rest);
    NewLinesAre(file, offset);
    NewLinesAre(later, offset);
  }

  lemma NewLinesAre(file: Option<Bytes>, offset: nat)
    requires offset <= |Content(file)|
    ensures ReadNewLines(file, offset).0 == LinesOf(Complete(Content(file)[offset..]))
  {
    assert LinesOf([]) == [];
    hide LinesOf;
    var data := Content(file)[offset..];
    if CompleteLength(data) == 0 { assert Complete(data) == []; }
  }

  lemma GrowthKeepsCaught(file: Option<Bytes>, later: Option<Bytes>, offset: nat, seen: seq<Text>)
    requires Caught(file, offset, seen) && Grew(file, later)
    ensures Caught(later, offset, seen)
  {
    assert Content(later)[..offset] == Content(file)[..offset];
  }

  /** All the lines a series of polls delivers, and the offset it ends at. */
  function Tail(polls: seq<Option<Bytes>>): (seq<Text>, nat)
    decreases |polls|
  {
    if polls == [] then ([], 0)
    else
      var before := Tail(polls[..|polls| - 1]);
      var added := ReadNewLines(polls[|polls| - 1], before.1);
      (before.0 + added.0, added.1)
  }

  ghost predicate Growing(polls: seq<Option<Bytes>>) {
    forall i :: 0 <= i < |polls| - 1 ==> Grew(polls[i], polls[i + 1])
  }

  /** The file as the latest poll saw it. */
  function Latest(polls: seq<Option<Bytes>>): Option<Bytes> {
    if polls == [] then None else polls[|polls| - 1]
  }

  /** Tailing a growing file refines reading it once: whatever the moments of the
      polls, the lines they deliver, one after the other, are the lines up to the
      last line feed that existed at the last poll; the offset never goes back and
      is always just after a line feed (or 0). */
  lemma {:induction false} TailingRefinesBatch(polls: seq<Option<Bytes>>)
    requires Growing(polls)
    ensures Tail(polls).0 == LinesOf(Complete(Content(Latest(polls))))
    ensures Tail(polls).1 == CompleteLength(Content(Latest(polls)))
    ensures polls != [] ==> Tail(polls[..|polls| - 1]).1 <= Tail(polls).1
    decreases |polls|
  {
    if polls != [] {
      var earlier := polls[..|polls| - 1];
      var before := Tail(earlier);
      assert Growing(earlier) by {
        forall i | 0 <= i < |earlier| - 1 ensures Grew(earlier[i], earlier[i + 1]) {
          assert Grew(polls[i], polls[i + 1]);
        }
      }
      TailingRefinesBatch(earlier);
      if earlier != [] {
        assert Grew(polls[|polls| - 2], polls[|polls| - 1]);
      }
      GrowthKeepsCaught(Latest(earlier), Latest(polls), before.1, before.0);
      PollCatchesUp(Latest(polls), before.1, before.0);
    }
  }
}
