/**
 The decoder behind the line reader, against the encoding of section 3 of RFC 3629:
 what is well-formed decodes to what was encoded, and what is not becomes replacement
 characters, one for each maximal ill-formed part.
 */
module Utf8 {
  import opened Basics
  import opened Lines

  /** Unicode scalar values: code points that are not surrogates. */
  predicate Scalar(c: int) {
    0 <= c < 0xD800 || 0xE000 <= c < 0x11_0000
  }

  ghost predicate Scalars(text: Text) {
    forall i :: 0 <= i < |text| ==> Scalar(text[i])
  }

  function Encode(c: int): (unit: Bytes)
    requires Scalar(c)
    ensures 1 <= |unit| <= 4
  {
    if c < 0x80 then [c]
    else if c < 0x800 then [0xC0 + c / 64, 0x80 + c % 64]
    else if c < 0x1_0000 then [0xE0 + c / 4096, 0x80 + c / 64 % 64, 0x80 + c % 64]
    else [0xF0 + c / 262144, 0x80 + c / 4096 % 64, 0x80 + c / 64 % 64, 0x80 + c % 64]
  }

  ghost function EncodeAll(text: Text): Bytes
    requires Scalars(text)
  {
    if text == [] then [] else Encode(text[0]) + EncodeAll(text[1..])
  }

  // --- one character -----------------------------------------------------------------

  /** The bytes of an encoding announce and continue each other. */
  lemma EncodingContinues(c: int)
    requires Scalar(c)
    ensures var unit := Encode(c);
            Announced(unit[0]) == |unit| && forall k :: 1 <= k < |unit| ==> Continues(unit[0], k, unit[k])
  {
    if c < 0x800 {
    } else if c < 0x1_0000 {
      ThreeContinue(c);
    } else {
      FourContinue(c);
    }
  }

  lemma ThreeContinue(c: int)
    requires 0x800 <= c < 0x1_0000 && Scalar(c)
    ensures var unit := Encode(c);
            Announced(unit[0]) == 3 && Continues(unit[0], 1, unit[1]) && Continues(unit[0], 2, unit[2])
  {
    assert c / 4096 == c / 64 / 64;
  }

  lemma FourContinue(c: int)
    requires 0x1_0000 <= c < 0x11_0000
    ensures var unit := Encode(c);
            && Announced(unit[0]) == 4 && Continues(unit[0], 1, unit[1])
            && Continues(unit[0], 2, unit[2]) && Continues(unit[0], 3, unit[3])
  {
    assert c / 262144 == c / 4096 / 64;
  }

  lemma EncodingDecodes(c: int)
    requires Scalar(c)
    ensures CodePoint(Encode(c)) == c
  {
    EncodingContinues(c);
    Digits(c);
    hide Announced, Continues;
  }

  /** A code point from its digits to the base of 64. */
  lemma Digits(c: int)
    requires 0 <= c
    ensures c == c / 64 * 64 + c % 64
    ensures c == c / 4096 * 4096 + c / 64 % 64 * 64 + c % 64
    ensures c == c / 262144 * 262144 + c / 4096 % 64 * 4096 + c / 64 % 64 * 64 + c % 64
  {
    assert c / 64 / 64 == c / 4096 && c / 4096 / 64 == c / 262144;
  }

  /** A decoded unit of the announced length is the encoding of its code point. */
  lemma UnitIsEncoding(unit: Bytes)
    requires unit != [] && |unit| == Announced(unit[0])
    requires forall k :: 1 <= k < |unit| ==> Continues(unit[0], k, unit[k])
    ensures Scalar(CodePoint(unit)) && Encode(CodePoint(unit)) == unit
  {
    if |unit| == 2 {
      assert Continues(unit[0], 1, unit[1]);
      TwoBytes(unit[0], unit[1]);
    } else if |unit| == 3 {
      assert Continues(unit[0], 1, unit[1]) && Continues(unit[0], 2, unit[2]);
      ThreeBytes(unit[0], unit[1], unit[2]);
    } else if |unit| == 4 {
      assert Continues(unit[0], 1, unit[1]) && Continues(unit[0], 2, unit[2]) && Continues(unit[0], 3, unit[3]);
      FourBytes(unit[0], unit[1], unit[2], unit[3]);
      assert unit == [unit[0], unit[1], unit[2], unit[3]];
    }
  }

  lemma TwoBytes(a: byte, b: byte)
    requires Announced(a) == 2 && Continues(a, 1, b)
    ensures var c := CodePoint([a, b]); 0x80 <= c < 0x800 && Encode(c) == [a, b]
  {
  }

  lemma ThreeBytes(a: byte, b: byte, d: byte)
    requires Announced(a) == 3 && Continues(a, 1, b) && Continues(a, 2, d)
    ensures var c := CodePoint([a, b, d]); Scalar(c) && 0x800 <= c < 0x1_0000 && Encode(c) == [a, b, d]
  {
    var p: int, q: int, r: int := a - 0xE0, b - 0x80, d - 0x80;
    assert CodePoint([a, b, d]) == p * 4096 + q * 64 + r;
    ThreeDigits(p, q, r);
    hide Announced, CodePoint;
  }

  lemma ThreeDigits(p: int, q: int, r: int)
    requires 0 <= p && 0 <= q < 64 && 0 <= r < 64
    ensures var c := p * 4096 + q * 64 + r; c / 4096 == p && c / 64 == p * 64 + q && c / 64 % 64 == q && c % 64 == r
  {
  }

  lemma FourBytes(a: byte, b: byte, d: byte, e: byte)
    requires Announced(a) == 4 && Continues(a, 1, b) && Continues(a, 2, d) && Continues(a, 3, e)
    ensures var c := CodePoint([a, b, d, e]); 0x1_0000 <= c < 0x11_0000 && Encode(c) == [a, b, d, e]
  {
    var p: int, q: int, r: int, s: int := a - 0xF0, b - 0x80, d - 0x80, e - 0x80;
    assert CodePoint([a, b, d, e]) == p * 262144 + q * 4096 + r * 64 + s;
    FourDigits(p, q, r, s);
    hide Announced, CodePoint;
  }

  lemma FourDigits(p: int, q: int, r: int, s: int)
    requires 0 <= p && 0 <= q < 64 && 0 <= r < 64 && 0 <= s < 64
    ensures var c := p * 262144 + q * 4096 + r * 64 + s;
            c / 262144 == p && c / 4096 % 64 == q && c / 64 % 64 == r && c % 64 == s
  {
    var c := p * 262144 + q * 4096 + r * 64 + s;
    assert c / 64 == p * 4096 + q * 64 + r && c / 4096 == p * 64 + q;
  }

  /** How far the bytes at the front belong together. */
  lemma {:induction false} ExtentIs(data: Bytes, k: nat)
    requires 1 <= k <= |data|
    requires k <= Announced(data[0]) || k == 1
    requires forall j :: 1 <= j < k ==> Continues(data[0], j, data[j])
    ensures var n := Extent(data, k);
            && (forall j :: 1 <= j < n ==> Continues(data[0], j, data[j]))
            && (n <= Announced(data[0]) || n == 1)
            && (n < Announced(data[0]) && n < |data| ==> !Continues(data[0], n, data[n]))
    decreases |data| - k
  {
    if k < Announced(data[0]) && k < |data| && Continues(data[0], k, data[k]) {
      ExtentIs(data, k + 1);
    }
  }

  /** An encoding at the front is taken off as a whole. */
  lemma {:induction false} EncodingInFront(c: int, rest: Bytes)
    requires Scalar(c)
    ensures Encode(c) + rest != [] && Extent(Encode(c) + rest, 1) == |Encode(c)|
  {
    var data, unit := Encode(c) + rest, Encode(c);
    EncodingContinues(c);
    ExtentIs(data, 1);
    hide Encode, Announced, Continues;
    assert forall j :: 0 <= j < |unit| ==> data[j] == unit[j];
    assert forall j :: 1 <= j < |unit| ==> Continues(data[0], j, data[j]);
  }

  lemma FrontIsWhole(data: Bytes, c: int)
    requires data != [] && Scalar(c)
    ensures Encode(c) <= data ==> Extent(data, 1) == Announced(data[0])
  {
    EncodingContinues(c);
    hide Encode, Announced, Continues, Extent;
    if Encode(c) <= data {
      EncodingInFront(c, data[|Encode(c)|..]);
      assert Encode(c) + data[|Encode(c)|..] == data;
    }
  }

  // --- texts -------------------------------------------------------------------------

  /** Every text is read back from its encoding. */
  lemma {:induction false} DecodeUndoesEncode(text: Text)
    requires Scalars(text)
    ensures Decode(EncodeAll(text)) == text
  {
    if text != [] {
      var rest := EncodeAll(text[1..]);
      DecodeUndoesEncode(text[1..]);
      EncodingInFront(text[0], rest);
      EncodingDecodes(text[0]);
      hide Encode, Extent, CodePoint;
      var data := Encode(text[0]) + rest;
      assert data[..|Encode(text[0])|] == Encode(text[0]) && data[|Encode(text[0])|..] == rest;
    }
  }

  /** What decodes without a replacement was the encoding of what came out. */
  lemma {:induction false} EncodeUndoesDecode(data: Bytes)
    ensures Scalars(Decode(data))
    ensures REPLACEMENT !in Decode(data) ==> EncodeAll(Decode(data)) == data
    decreases |data|
  {
    if data != [] {
      var n := Extent(data, 1);
      var unit, rest := data[..n], data[n..];
      EncodeUndoesDecode(rest);
      ExtentIs(data, 1);
      FirstUnit(data, n);
      assert Decode(data) == [CodePoint(unit)] + Decode(rest);
      hide Encode, Extent, CodePoint, Announced, Continues, Decode;
      HeadAndTail(CodePoint(unit), Decode(rest));
      assert unit + rest == data;
    }
  }

  lemma HeadAndTail(c: int, rest: Text)
    ensures ([c] + rest)[1..] == rest
    ensures REPLACEMENT in [c] + rest <==> c == REPLACEMENT || REPLACEMENT in rest
    ensures Scalar(c) && Scalars(rest) ==> Scalars([c] + rest)
  {
    hide Scalar;
    assert forall i :: 0 <= i < |rest| ==> ([c] + rest)[i + 1] == rest[i];
  }

  lemma FirstUnit(data: Bytes, n: nat)
    requires 1 <= n <= |data| && forall j :: 1 <= j < n ==> Continues(data[0], j, data[j])
    ensures var c := CodePoint(data[..n]); Scalar(c) && (c != REPLACEMENT ==> Encode(c) == data[..n])
  {
    var unit := data[..n];
    hide Continues, Announced, Encode;
    if |unit| == Announced(unit[0]) { UnitIsEncoding(unit); }
  }

  /** The text without replacement characters that some bytes decode to is the one they
      encode. */
  lemma {:induction false} DecodesIff(data: Bytes, text: Text)
    requires Scalars(text) && REPLACEMENT !in text
    ensures Decode(data) == text <==> data == EncodeAll(text)
  {
    hide Decode, EncodeAll;
    DecodeUndoesEncode(text);
    EncodeUndoesDecode(data);
  }

  // --- what is replaced ------------------------------------------------------------------

  /** The smallest encoding that starts with these bytes. */
  function Padded(unit: Bytes, missing: nat): Bytes {
    if missing == 0 then unit else Padded(unit, missing - 1) + [0x80]
  }

  lemma {:induction false} PaddedContinues(unit: Bytes, missing: nat)
    requires |unit| > 1 && forall k :: 1 <= k < |unit| ==> Continues(unit[0], k, unit[k])
    ensures var whole := Padded(unit, missing);
            && |whole| == |unit| + missing && unit <= whole
            && forall k :: 1 <= k < |whole| ==> Continues(whole[0], k, whole[k])
  {
    if missing > 0 {
      PaddedContinues(unit, missing - 1);
    }
  }

  /** Where no character is encoded, the bytes that are replaced together are the
      longest that could start one, or else a single byte. */
  lemma {:induction false} ReplacedIsMaximal(data: Bytes)
    requires data != [] && Extent(data, 1) != Announced(data[0])
    ensures var n := Extent(data, 1);
            && (forall c: int :: Scalar(c) ==> !(Encode(c) <= data))
            && (n > 1 ==> exists c: int :: Scalar(c) && data[..n] <= Encode(c))
            && (n < |data| ==> forall c: int :: Scalar(c) ==> !(data[..n + 1] <= Encode(c)))
            && CodePoint(data[..n]) == REPLACEMENT
  {
    var n := Extent(data, 1);
    ExtentIs(data, 1);
    hide Extent, Continues, Announced, CodePoint;
    forall c: int | Scalar(c) ensures !(Encode(c) <= data) {
      FrontIsWhole(data, c);
    }
    forall c: int | Scalar(c) && n < |data| ensures !(data[..n + 1] <= Encode(c)) {
      LongerContinues(data, n, c);
    }
    if n > 1 {
      var whole := Padded(data[..n], Announced(data[0]) - n);
      PaddedContinues(data[..n], Announced(data[0]) - n);
      UnitIsEncoding(whole);
      assert data[..n] <= Encode(CodePoint(whole));
    }
    NotAnnounced(data[..n]);
  }

  lemma LongerContinues(data: Bytes, n: nat, c: int)
    requires 1 <= n < |data| && Scalar(c)
    ensures data[..n + 1] <= Encode(c) ==> n < Announced(data[0]) && Continues(data[0], n, data[n])
  {
    EncodingContinues(c);
    hide Encode, Announced, Continues;
    if data[..n + 1] <= Encode(c) {
      assert data[..n + 1][0] == data[0] == Encode(c)[0] && data[..n + 1][n] == data[n] == Encode(c)[n];
    }
  }

  lemma NotAnnounced(unit: Bytes)
    requires unit != [] && |unit| != Announced(unit[0])
    ensures CodePoint(unit) == REPLACEMENT
  {
  }
}
