/** The text operations the parsers rely on: decimal numbers, stripping, splitting. */
module PyText {
  import opened Basics
  import Lines

  predicate IsSpace(c: char) {
    Lines.Space(c as int)
  }

  predicate IsDigit(c: char) {
    '0' <= c <= '9'
  }

  // --- int(text) and str(int) -------------------------------------------------

  function DigitChar(d: nat): (c: char)
    requires d < 10
    ensures IsDigit(c) && c as int - '0' as int == d
  {
    '0' + d as char
  }

  /** The decimal text of a natural number. */
  function Decimal(n: nat): (s: string)
    ensures s != "" && forall i :: 0 <= i < |s| ==> IsDigit(s[i])
  {
    if n < 10 then [DigitChar(n)] else Decimal(n / 10) + [DigitChar(n % 10)]
  }

  /** `str` of an integer. */
  function Str(n: int): string {
    if n < 0 then "-" + Decimal(-n) else Decimal(n)
  }

  /** Digits, with single underscores allowed between them. */
  function DigitsValue(s: string): Option<nat>
    decreases |s|
  {
    if s == "" || !IsDigit(s[|s| - 1]) then None
    else
      var d := s[|s| - 1] as int - '0' as int;
      if |s| == 1 then Some(d)
      else
        match DigitsValue(if s[|s| - 2] == '_' then s[..|s| - 2] else s[..|s| - 1])
        case None => None
        case Some(v) => Some(10 * v + d)
  }

  /** `int` of a text; nothing where it raises ValueError. */
  function IntOf(s: string): Option<int> {
    var t := Strip(s);
    if t == "" then None
    else
      var digits := if t[0] == '-' || t[0] == '+' then t[1..] else t;
      match DigitsValue(digits)
      case None => None
      case Some(v) => var n: int := v; Some(if t[0] == '-' then -n else n)
  }

  lemma {:induction false} DecimalReadsBack(n: nat)
    ensures DigitsValue(Decimal(n)) == Some(n)
  {
    if n >= 10 {
      DecimalReadsBack(n / 10);
      var s := Decimal(n);
      assert s[..|s| - 1] == Decimal(n / 10);
      assert IsDigit(s[|s| - 2]);
    }
  }

  /** Every integer survives being written and read again. */
  lemma {:induction false} IntReadsBack(n: int)
    ensures IntOf(Str(n)) == Some(n)
  {
    var s := Str(n);
    DecimalReadsBack(if n < 0 then -n else n);
    StripNothing(s);
    if n < 0 {
      assert s[1..] == Decimal(-n);
    } else {
      assert IsDigit(s[0]);
    }
  }

  lemma {:induction false} StrIsVisible(n: int)
    ensures Str(n) != "" && !IsSpace(Str(n)[0]) && !IsSpace(Str(n)[|Str(n)| - 1])
    ensures forall i :: 0 <= i < |Str(n)| ==> IsDigit(Str(n)[i]) || Str(n)[i] == '-'
  {
  }

  // --- strip -------------------------------------------------------------------

  /** Drops leading characters that satisfy `drop`. */
  function LStrip(s: string, drop: char -> bool): (r: string)
    ensures |r| <= |s| && (r != "" ==> !drop(r[0]))
  {
    if s == "" || !drop(s[0]) then s else LStrip(s[1..], drop)
  }

  function RStrip(s: string, drop: char -> bool): (r: string)
    ensures |r| <= |s| && (r != "" ==> !drop(r[|r| - 1]))
  {
    if s == "" || !drop(s[|s| - 1]) then s else RStrip(s[..|s| - 1], drop)
  }

  function Strip(s: string): string {
    LStrip(RStrip(s, IsSpace), IsSpace)
  }

  lemma StripNothing(s: string)
    requires s == "" || (!IsSpace(s[0]) && !IsSpace(s[|s| - 1]))
    ensures Strip(s) == s
  {
  }

  /** What strip leaves of a text with a visible end is one of its tails. */
  lemma {:induction false} LStripIsTail(s: string, drop: char -> bool) returns (k: nat)
    ensures k <= |s| && LStrip(s, drop) == s[k..] && (k == 0 <==> s == "" || !drop(s[0]))
    ensures s != "" && !drop(s[|s| - 1]) ==> k < |s|
  {
    if s == "" || !drop(s[0]) {
      k := 0;
    } else {
      var j := LStripIsTail(s[1..], drop);
      k := j + 1;
      assert s[1..][j..] == s[k..];
    }
  }

  // --- exactly which texts are integers ------------------------------------------

  predicate DigitOrUnderscore(c: char) {
    IsDigit(c) || c == '_'
  }

  /** Digits with single underscores between them. */
  predicate Numeral(s: string) {
    && s != "" && IsDigit(s[0]) && IsDigit(s[|s| - 1])
    && (forall i :: 0 <= i < |s| ==> DigitOrUnderscore(s[i]))
    && (forall i :: 0 <= i < |s| - 1 ==> IsDigit(s[i]) || IsDigit(s[i + 1]))
  }

  /** The number the digits write, from left to right. */
  function Horner(s: string): nat {
    if s == "" then 0
    else
      var before, last := Horner(s[..|s| - 1]), s[|s| - 1];
      if IsDigit(last) then 10 * before + (last as int - '0' as int) else before
  }

  lemma {:induction false} DigitsIff(s: string)
    ensures DigitsValue(s) == if Numeral(s) then Some(Horner(s)) else None
    decreases |s|
  {
    if s != "" && IsDigit(s[|s| - 1]) && |s| > 1 {
      var front := s[..|s| - 1];
      if s[|s| - 2] == '_' {
        var digits := s[..|s| - 2];
        DigitsIff(digits);
        assert front[..|front| - 1] == digits && Horner(front) == Horner(digits);
        NumeralMore(s, digits);
      } else {
        DigitsIff(front);
        NumeralMore(s, front);
      }
    }
  }

  /** A digit more, with or without an underscore in front of it. */
  lemma NumeralMore(s: string, rest: string)
    requires |s| > 1 && IsDigit(s[|s| - 1])
    requires rest == if s[|s| - 2] == '_' then s[..|s| - 2] else s[..|s| - 1]
    ensures Numeral(s) <==> Numeral(rest)
  {
    assert rest <= s;
    if Numeral(s) {
      if |s| > 2 { assert IsDigit(s[|s| - 3]) || IsDigit(s[|s| - 2]); }
      assert IsDigit(s[0]);
    }
    if Numeral(rest) {
      assert rest[0] == s[0] && rest[|rest| - 1] == s[|rest| - 1];
      assert forall i :: 0 <= i < |rest| ==> s[i] == rest[i];
    }
  }

  predicate AllSpace(s: string) {
    forall i :: 0 <= i < |s| ==> IsSpace(s[i])
  }

  lemma {:induction false} RStripIsFront(s: string, drop: char -> bool) returns (k: nat)
    ensures k <= |s| && RStrip(s, drop) == s[..k] && forall i :: k <= i < |s| ==> drop(s[i])
  {
    if s == "" || !drop(s[|s| - 1]) {
      k := |s|;
    } else {
      k := RStripIsFront(s[..|s| - 1], drop);
      assert s[..|s| - 1][..k] == s[..k];
    }
  }

  lemma {:induction false} LStripDrops(s: string, drop: char -> bool) returns (k: nat)
    ensures k <= |s| && LStrip(s, drop) == s[k..] && forall i :: 0 <= i < k ==> drop(s[i])
  {
    if s == "" || !drop(s[0]) {
      k := 0;
    } else {
      var j := LStripDrops(s[1..], drop);
      k := j + 1;
      assert s[1..][j..] == s[k..];
      assert forall i :: 1 <= i < k ==> s[i] == s[1..][i - 1];
    }
  }

  /** What `strip` takes off is space, and all the space there is at the ends. */
  lemma {:induction false} StripIs(s: string) returns (left: string, right: string)
    ensures s == left + Strip(s) + right && AllSpace(left) && AllSpace(right)
    ensures Strip(s) != "" ==> !IsSpace(Strip(s)[0]) && !IsSpace(Strip(s)[|Strip(s)| - 1])
  {
    hide IsSpace;
    var n := RStripIsFront(s, IsSpace);
    var front := s[..n];
    var k := LStripDrops(front, IsSpace);
    left, right := front[..k], s[n..];
    var t := front[k..];
    assert Strip(s) == t;
    assert s == left + t + right;
    assert t != "" ==> t[|t| - 1] == front[|front| - 1];
  }

  lemma {:induction false} StripUndoesPadding(left: string, text: string, right: string)
    requires AllSpace(left) && AllSpace(right)
    requires text != "" && !IsSpace(text[0]) && !IsSpace(text[|text| - 1])
    ensures Strip(left + text + right) == text
  {
    var s := left + text + right;
    var l, r := StripIs(s);
    var t := Strip(s);
    assert s[|left|] == text[0] && s[|left| + |text| - 1] == text[|text| - 1];
    assert forall i :: 0 <= i < |left| ==> s[i] == left[i];
    assert forall i :: |left| + |text| <= i < |s| ==> s[i] == right[i - |left| - |text|];
    assert forall i :: 0 <= i < |l| ==> s[i] == l[i];
    assert forall i :: |l| + |t| <= i < |s| ==> s[i] == r[i - |l| - |t|];
    assert |l| <= |left| && |l| + |t| >= |left| + |text|;
    assert t[0] == s[|l|] && t[|t| - 1] == s[|l| + |t| - 1];
    assert s[|l|..|l| + |t|] == t && s[|left|..|left| + |text|] == text;
  }

  /** A numeral, perhaps behind a sign, perhaps with space around it. */
  ghost predicate Spells(text: string, left: string, sign: string, digits: string, right: string) {
    && text == left + (sign + digits) + right && AllSpace(left) && AllSpace(right)
    && (sign == "" || sign == "+" || sign == "-") && Numeral(digits)
  }

  function Signed(sign: string, digits: string): int {
    var n: int := Horner(digits);
    if sign == "-" then -n else n
  }

  /** `int` accepts exactly such texts; the number is what the digits write, negated
      behind a minus. */
  lemma {:induction false} IntIff(text: string, n: int)
    ensures IntOf(text) == Some(n)
       <==> exists left: string, sign: string, digits: string, right: string ::
              Spells(text, left, sign, digits, right) && n == Signed(sign, digits)
  {
    hide Strip, Horner, DigitsValue;
    if IntOf(text) == Some(n) {
      var left, right := StripIs(text);
      var sign, digits := SignApart(Strip(text));
      DigitsIff(digits);
      assert Spells(text, left, sign, digits, right);
    }
    if left: string, sign: string, digits: string, right: string :|
         Spells(text, left, sign, digits, right) && n == Signed(sign, digits) {
      SpelledOut(text, left, sign, digits, right);
    }
  }

  lemma SignApart(t: string) returns (sign: string, digits: string)
    requires t != ""
    ensures t == sign + digits && (sign == "" || sign == "+" || sign == "-")
    ensures digits == (if t[0] == '-' || t[0] == '+' then t[1..] else t) && (sign == "-" <==> t[0] == '-')
  {
    sign := if t[0] == '-' || t[0] == '+' then t[..1] else "";
    digits := t[|sign|..];
  }

  lemma {:induction false} SpelledOut(text: string, left: string, sign: string, digits: string, right: string)
    requires Spells(text, left, sign, digits, right)
    ensures IntOf(text) == Some(Signed(sign, digits))
  {
    var t := sign + digits;
    assert text == left + t + right && Numeral(digits);
    hide *;
    SignInFront(sign, digits);
    DigitsIff(digits);
    StripUndoesPadding(left, t, right);
    IntOfStripped(text, sign, digits);
  }

  lemma IntOfStripped(text: string, sign: string, digits: string)
    requires Strip(text) == sign + digits && sign + digits != "" && DigitsValue(digits) == Some(Horner(digits))
    requires var t := sign + digits;
             digits == (if t[0] == '-' || t[0] == '+' then t[1..] else t) && (sign == "-" <==> t[0] == '-')
    ensures IntOf(text) == Some(Signed(sign, digits))
  {
    hide Strip, Horner, DigitsValue;
  }

  lemma SignInFront(sign: string, digits: string)
    requires (sign == "" || sign == "+" || sign == "-") && Numeral(digits)
    ensures var t := sign + digits;
            && t != "" && !IsSpace(t[0]) && !IsSpace(t[|t| - 1])
            && digits == (if t[0] == '-' || t[0] == '+' then t[1..] else t) && (sign == "-" <==> t[0] == '-')
  {
    var t := sign + digits;
    assert t[|t| - 1] == digits[|digits| - 1];
    assert sign == "" ==> t == digits;
  }

  // --- partition -----------------------------------------------------------------

  /** Position of the first `c`, or the length. */
  function Find(s: string, c: char): (n: nat)
    ensures n <= |s| && (n < |s| ==> s[n] == c) && forall i :: 0 <= i < n ==> s[i] != c
  {
    if s == "" || s[0] == c then 0 else 1 + Find(s[1..], c)
  }

  /** One past the position of the last `c`, or 0. */
  function RFind(s: string, c: char): (n: nat)
    ensures n <= |s| && (n > 0 ==> s[n - 1] == c) && forall i :: n <= i < |s| ==> s[i] != c
  {
    if s == "" then 0 else if s[|s| - 1] == c then |s| else RFind(s[..|s| - 1], c)
  }

  /** `partition(c)` without the separator. */
  function Partition(s: string, c: char): (string, string) {
    var n := Find(s, c);
    if n == |s| then (s, "") else (s[..n], s[n + 1..])
  }

  /** `rpartition(c)` without the separator. */
  function RPartition(s: string, c: char): (string, string) {
    var n := RFind(s, c);
    if n == 0 then ("", s) else (s[..n - 1], s[n..])
  }

  /** `split(c)`. */
  function Split(s: string, c: char): seq<string> {
    var n := Find(s, c);
    if n == |s| then [s] else [s[..n]] + Split(s[n + 1..], c)
  }

  lemma {:induction false} FindIs(s: string, c: char, n: nat)
    requires n < |s| && s[n] == c && forall i :: 0 <= i < n ==> s[i] != c
    ensures Find(s, c) == n
  {
  }

  lemma {:induction false} RFindIs(s: string, c: char, n: nat)
    requires 0 < n <= |s| && s[n - 1] == c && forall i :: n <= i < |s| ==> s[i] != c
    ensures RFind(s, c) == n
  {
  }

  /** The text left of the last separator, when no separator follows it. */
  lemma {:induction false} RPartitionAt(left: string, c: char, right: string)
    requires forall i :: 0 <= i < |right| ==> right[i] != c
    ensures RPartition(left + [c] + right, c) == (left, right)
  {
    var s := left + [c] + right;
    forall i | |left| + 1 <= i < |s| ensures s[i] != c {
      assert s[i] == right[i - |left| - 1];
    }
    RFindIs(s, c, |left| + 1);
    assert s[..|left|] == left && s[|left| + 1..] == right;
  }

  /** `join` with a one-character separator, undone. */
  lemma {:induction false} SplitAt(left: string, c: char, right: string)
    requires c !in left
    ensures Split(left + [c] + right, c) == [left] + Split(right, c)
  {
    var s := left + [c] + right;
    assert forall i :: 0 <= i < |left| ==> s[i] == left[i];
    FindIs(s, c, |left|);
    assert s[..|left|] == left && s[|left| + 1..] == right;
  }

  lemma {:induction false} PartitionAt(left: string, c: char, right: string)
    requires forall i :: 0 <= i < |left| ==> left[i] != c
    ensures Partition(left + [c] + right, c) == (left, right)
  {
    var s := left + [c] + right;
    assert forall i :: 0 <= i < |left| ==> s[i] == left[i];
    FindIs(s, c, |left|);
    assert s[..|left|] == left && s[|left| + 1..] == right;
  }
}
