/** Base64 VLQ (ECMA-426, "Base64 VLQ"): the decoder with its 64-bit arithmetic,
    the standard encoder, and how far the first inverts the second. */
module Vlq {
  import opened Text

  // --- the alphabet -------------------------------------------------------------

  /** The position of `c` in the table A-Z a-z 0-9 + /, if it is there. */
  function Sextet(c: char): (r: Option<nat>)
    ensures r.Some? ==> r.value < 64
  {
    if 'A' <= c <= 'Z' then Some(c as int - 'A' as int)
    else if 'a' <= c <= 'z' then Some(c as int - 'a' as int + 26)
    else if '0' <= c <= '9' then Some(c as int - '0' as int + 52)
    else if c == '+' then Some(62)
    else if c == '/' then Some(63)
    else None
  }

  function Sextet64(d: nat): (c: char)
    requires d < 64
    ensures Sextet(c) == Some(d)
  {
    if d < 26 then ('A' as int + d) as char
    else if d < 52 then ('a' as int + d - 26) as char
    else if d < 62 then ('0' as int + d - 52) as char
    else if d == 62 then '+' else '/'
  }

  // --- 64-bit arithmetic ----------------------------------------------------------

  const TWO_62 := 0x4000_0000_0000_0000
  const TWO_63 := 0x8000_0000_0000_0000
  const TWO_64 := 0x1_0000_0000_0000_0000

  /** The `i64` congruent to `x`: what a release build keeps of an overflowing result. */
  function Wrap(x: int): (w: int)
    ensures -TWO_63 <= w < TWO_63
    ensures -TWO_63 <= x < TWO_63 ==> w == x
  {
    (x + TWO_63) % TWO_64 - TWO_63
  }

  lemma WrapOfSum(x: int, y: int)
    ensures Wrap(Wrap(x) + y) == Wrap(x + y) == Wrap(x + Wrap(y))
  {
    var k := (x + TWO_63) / TWO_64;
    var j := (y + TWO_63) / TWO_64;
    assert Wrap(x) == x - k * TWO_64 && Wrap(y) == y - j * TWO_64;
    WrapPeriod(x + y, -k);
    WrapPeriod(x + y, -j);
  }

  lemma WrapPeriod(x: int, k: int)
    ensures Wrap(x + k * TWO_64) == Wrap(x)
  {
    var a := x + TWO_63;
    var q := a / TWO_64;
    assert a + k * TWO_64 == (q + k) * TWO_64 + a % TWO_64;
  }

  function Pow2(n: nat): (p: nat)
    ensures p >= 1
  {
    if n == 0 then 1 else 2 * Pow2(n - 1)
  }

  /** `d` moved left by `shift` bits, before any wrapping. */
  function Shl(d: nat, shift: nat): nat { d * Pow2(shift) }

  // --- the decoder ------------------------------------------------------------------

  /** The sign sits in the lowest bit; `>>` on `i64` rounds down. */
  function FieldOf(value: int): int {
    if value % 2 != 0 then Wrap(-(value / 2)) else value / 2
  }

  /** One digit added at `shift`; a release build masks the shift amount to 6 bits. */
  function Accumulate(value: int, digit: nat, shift: nat): int {
    Wrap(value + Wrap(Shl(digit % 32, shift % 64)))
  }

  /** What is still to be decoded when `value` holds the digits read so far. */
  function Decoded(s: string, shift: nat, value: int): seq<int> {
    if s == [] || Sextet(s[0]).None? then []
    else
      var digit := Sextet(s[0]).value;
      var next := Accumulate(value, digit, shift);
      if digit >= 32 then Decoded(s[1..], shift + 5, next)
      else [FieldOf(next)] + Decoded(s[1..], 0, 0)
  }

  method DecodeVlq(segment: string) returns (out: seq<int>)
    ensures out == Decoded(segment, 0, 0)
  {
    out := [];
    var shift, value := 0, 0;
    for i := 0 to |segment|
      invariant shift >= 0
      invariant out + Decoded(segment[i..], shift, value) == Decoded(segment, 0, 0)
    {
      var rest := segment[i..];
      assert rest[1..] == segment[i + 1..];
      var sextet := Sextet(segment[i]);
      if sextet.None? {
        return out;
      }
      value := Accumulate(value, sextet.value, shift);
      if sextet.value >= 32 {
        shift := shift + 5;
      } else {
        out := out + [FieldOf(value)];
        shift, value := 0, 0;
      }
    }
  }

  // --- the standard encoder -----------------------------------------------------------

  function ZigZag(x: int): nat { if x >= 0 then 2 * x else 2 * -x + 1 }

  function EncodeNat(v: nat): string {
    if v < 32 then [Sextet64(v)] else [Sextet64(32 + v % 32)] + EncodeNat(v / 32)
  }

  function Encode(fields: seq<int>): string {
    if fields == [] then "" else EncodeNat(ZigZag(fields[0])) + Encode(fields[1..])
  }

  // --- decoding an encoding ------------------------------------------------------------

  lemma AccumulateDigit(value: int, digit: nat, shift: nat)
    requires shift < 64
    ensures Accumulate(value, digit, shift) == Wrap(value + Shl(digit % 32, shift))
  {
    hide Wrap, Shl;
    assert shift % 64 == shift;
    WrapOfSum(value, Shl(digit % 32, shift));
  }

  /** The digits above the lowest weigh 2^5 times what they weigh on their own. */
  lemma ShlSplit(v: nat, shift: nat)
    ensures Shl(v, shift) == Shl(v % 32, shift) + Shl(v / 32, shift + 5)
  {
    Pow2Plus5(shift);
    var p := Pow2(shift);
    calc {
      (v % 32) * p + (v / 32) * (32 * p);
      (v % 32) * p + (32 * (v / 32)) * p;
      (v % 32 + 32 * (v / 32)) * p;
      v * p;
    }
  }

  lemma ShlAtLeast(v: nat, shift: nat)
    requires v > 0
    ensures Shl(v, shift) >= Pow2(shift)
  {
  }

  /** The accumulator always holds the wrapped sum of the digits read so far, as long
      as the shift stays below 64. */
  lemma {:induction false} DecodedNat(v: nat, rest: string, shift: nat, value: int)
    requires Shl(v, shift) < TWO_64 && (shift == 0 || v > 0)
    ensures Decoded(EncodeNat(v) + rest, shift, value)
         == [FieldOf(Wrap(value + Shl(v, shift)))] + Decoded(rest, 0, 0)
    decreases v
  {
    hide Wrap, Shl, FieldOf, Accumulate, Sextet, Sextet64;
    ShiftBelow64(v, shift);
    var s := EncodeNat(v) + rest;
    if v < 32 {
      assert s[1..] == rest;
      AccumulateDigit(value, v, shift);
    } else {
      var hi, lo := v / 32, v % 32;
      assert s[0] == Sextet64(32 + lo) && s[1..] == EncodeNat(hi) + rest;
      AccumulateDigit(value, 32 + lo, shift);
      ShlSplit(v, shift);
      DecodedNat(hi, rest, shift + 5, Wrap(value + Shl(lo, shift)));
      WrapOfSum(value + Shl(lo, shift), Shl(hi, shift + 5));
    }
  }

  lemma Pow2Plus5(n: nat)
    ensures Pow2(n + 5) == 32 * Pow2(n)
  {
    assert Pow2(n + 5) == 2 * Pow2(n + 4) == 4 * Pow2(n + 3) == 8 * Pow2(n + 2) == 16 * Pow2(n + 1);
  }

  lemma {:induction false} Pow2Monotonic(m: nat, n: nat)
    requires m <= n
    ensures Pow2(m) <= Pow2(n)
    decreases n
  {
    if m < n { Pow2Monotonic(m, n - 1); }
  }

  lemma Pow2Of64()
    ensures Pow2(64) == TWO_64
  {
    Pow2Plus5(0); Pow2Plus5(5); Pow2Plus5(10); Pow2Plus5(15); Pow2Plus5(20); Pow2Plus5(25);
    Pow2Plus5(30); Pow2Plus5(35); Pow2Plus5(40); Pow2Plus5(45); Pow2Plus5(50); Pow2Plus5(55);
    assert Pow2(64) == 2 * Pow2(63) == 4 * Pow2(62) == 8 * Pow2(61) == 16 * Pow2(60);
  }

  lemma ShiftBelow64(v: nat, shift: nat)
    requires Shl(v, shift) < TWO_64 && (shift == 0 || v > 0)
    ensures shift < 64
  {
    hide Shl, Pow2;
    if shift >= 64 {
      Pow2Monotonic(64, shift);
      Pow2Of64();
      ShlAtLeast(v, shift);
    }
  }

  lemma FieldOfZigZag(x: int)
    requires -TWO_62 < x < TWO_62
    ensures FieldOf(Wrap(ZigZag(x))) == x
  {
  }

  lemma DecodedField(x: int, rest: string)
    requires -TWO_63 < x < TWO_63
    ensures Decoded(EncodeNat(ZigZag(x)) + rest, 0, 0) == [FieldOf(Wrap(ZigZag(x)))] + Decoded(rest, 0, 0)
  {
    assert Shl(ZigZag(x), 0) == ZigZag(x);
    DecodedNat(ZigZag(x), rest, 0, 0);
  }

  predicate Exact(fields: seq<int>) {
    forall i | 0 <= i < |fields| :: -TWO_62 < fields[i] < TWO_62
  }

  /** Round trip: on every list of fields below 2^62 in magnitude, and whatever text
      follows, the decoder returns the encoded fields and goes on with that text. */
  lemma {:induction false} DecodeInvertsEncode(fields: seq<int>, rest: string)
    requires Exact(fields)
    ensures Decoded(Encode(fields) + rest, 0, 0) == fields + Decoded(rest, 0, 0)
  {
    hide FieldOf, ZigZag, Accumulate, Wrap, EncodeNat, Sextet;
    if fields == [] {
      assert Encode(fields) + rest == rest;
    } else {
      var tail := Encode(fields[1..]) + rest;
      assert Encode(fields) + rest == EncodeNat(ZigZag(fields[0])) + tail;
      DecodedField(fields[0], tail);
      FieldOfZigZag(fields[0]);
      DecodeInvertsEncode(fields[1..], rest);
    }
  }

  /** No decoded field is larger than 2^62 in magnitude, whatever the segment. */
  lemma {:induction false} DecodedFieldsBounded(s: string, shift: nat, value: int)
    ensures forall f | f in Decoded(s, shift, value) :: -TWO_62 <= f <= TWO_62
    decreases |s|
  {
    if s != [] && Sextet(s[0]).Some? {
      var next := Accumulate(value, Sextet(s[0]).value, shift);
      DecodedFieldsBounded(s[1..], shift + 5, next);
      DecodedFieldsBounded(s[1..], 0, 0);
    }
  }

  /** The field that comes back for `x`. */
  function Returned(x: int): int { FieldOf(Wrap(ZigZag(x))) }

  function ReturnedAll(fields: seq<int>): (r: seq<int>)
    ensures |r| == |fields| && forall i | 0 <= i < |r| :: r[i] == Returned(fields[i])
  {
    if fields == [] then [] else [Returned(fields[0])] + ReturnedAll(fields[1..])
  }

  lemma ReturnedExactly(x: int)
    requires -TWO_62 <= x <= TWO_62
    ensures Returned(x) == x <==> -TWO_62 < x < TWO_62
  {
  }

  lemma {:induction false} DecodedAll(fields: seq<int>)
    requires forall i | 0 <= i < |fields| :: -TWO_62 <= fields[i] <= TWO_62
    ensures Decoded(Encode(fields), 0, 0) == ReturnedAll(fields)
  {
    hide FieldOf, ZigZag, Accumulate, Wrap, EncodeNat, Sextet;
    if fields != [] {
      DecodedField(fields[0], Encode(fields[1..]));
      DecodedAll(fields[1..]);
    }
  }

  /** Exactly the lists of fields below 2^62 in magnitude come back from their encoding. */
  lemma ListRoundTripExactly(fields: seq<int>)
    ensures Decoded(Encode(fields), 0, 0) == fields <==> Exact(fields)
  {
    hide Decoded, Encode, Returned;
    if Decoded(Encode(fields), 0, 0) == fields {
      DecodedFieldsBounded(Encode(fields), 0, 0);
      assert forall i | 0 <= i < |fields| :: fields[i] in fields;
    }
    if forall i | 0 <= i < |fields| :: -TWO_62 <= fields[i] <= TWO_62 {
      DecodedAll(fields);
      forall i | 0 <= i < |fields|
        ensures Returned(fields[i]) == fields[i] <==> -TWO_62 < fields[i] < TWO_62
      {
        ReturnedExactly(fields[i]);
      }
    }
  }

  // --- no overflow --------------------------------------------------------------------

  /** Decoding `s` from this accumulator keeps the shift at most `maxShift`, and no
      shift or addition leaves the non-negative `i64` range. */
  predicate Quiet(s: string, shift: nat, value: int, maxShift: nat) {
    s == [] || Sextet(s[0]).None? ||
    (var digit := Sextet(s[0]).value;
     var sum := value + Shl(digit % 32, shift);
     && shift <= maxShift < 63
     && 0 <= value <= sum < TWO_63
     && if digit >= 32 then Quiet(s[1..], shift + 5, sum, maxShift) else Quiet(s[1..], 0, 0, maxShift))
  }

  lemma {:induction false} QuietNat(v: nat, rest: string, shift: nat, value: nat, maxShift: nat)
    requires value + Shl(v, shift) < TWO_63
    requires Shl(v, shift) < Pow2(maxShift + 5) && maxShift % 5 == shift % 5 == 0
    requires shift <= maxShift < 63 && Quiet(rest, 0, 0, maxShift)
    ensures Quiet(EncodeNat(v) + rest, shift, value, maxShift)
    decreases v
  {
    hide Pow2, Shl, Sextet, Sextet64;
    var s := EncodeNat(v) + rest;
    if v < 32 {
      assert s[1..] == rest;
    } else {
      var hi, lo := v / 32, v % 32;
      assert s[0] == Sextet64(32 + lo) && s[1..] == EncodeNat(hi) + rest;
      ShlSplit(v, shift);
      if shift == maxShift {
        ShlAtLeast(hi, shift + 5);
        assert false;
      }
      QuietNat(hi, rest, shift + 5, value + Shl(lo, shift), maxShift);
    }
  }

  /** While every field is below 2^31 in magnitude the shift never exceeds 30, and
      below 2^62 it never exceeds 60; in both cases no operation overflows. */
  lemma {:induction false} NoOverflow(fields: seq<int>, maxShift: nat)
    requires maxShift == 30 || maxShift == 60
    requires forall i | 0 <= i < |fields| ::
      if maxShift == 30 then -0x8000_0000 < fields[i] < 0x8000_0000 else -TWO_62 < fields[i] < TWO_62
    ensures Quiet(Encode(fields), 0, 0, maxShift)
  {
    if fields != [] {
      NoOverflow(fields[1..], maxShift);
      var v := ZigZag(fields[0]);
      assert Shl(v, 0) == v;
      Pow2Of35();
      assert Pow2(65) == 2 * Pow2(64);
      Pow2Of64();
      QuietNat(v, Encode(fields[1..]), 0, 0, maxShift);
    }
  }

  lemma Pow2Of35()
    ensures Pow2(35) == 0x8_0000_0000
  {
    Pow2Plus5(0); Pow2Plus5(5); Pow2Plus5(10); Pow2Plus5(15); Pow2Plus5(20); Pow2Plus5(25); Pow2Plus5(30);
  }

  // --- beyond 64 bits -------------------------------------------------------------------

  /** `n` continuation digits of value 0. */
  function Zeros(n: nat): string { if n == 0 then "" else "g" + Zeros(n - 1) }

  lemma {:induction false} ZerosShift(n: nat, rest: string, shift: nat, value: int)
    requires -TWO_63 <= value < TWO_63
    ensures Decoded(Zeros(n) + rest, shift, value) == Decoded(rest, shift + 5 * n, value)
  {
    if n == 0 {
      assert Zeros(0) + rest == rest;
    } else {
      assert Zeros(n) + rest == "g" + (Zeros(n - 1) + rest);
      assert ("g" + (Zeros(n - 1) + rest))[1..] == Zeros(n - 1) + rest;
      assert Sextet('g') == Some(32) && Accumulate(value, 32, shift) == value;
      hide Accumulate, Sextet, Wrap;
      ZerosShift(n - 1, rest, shift + 5, value);
    }
  }

  lemma MaskedAccumulate()
    ensures Accumulate(0, 2, 65) == 4 && FieldOf(4) == 2
  {
    assert Pow2(1) == 2 by { assert Pow2(0) == 1; }
    assert Shl(2, 1) == 4;
  }

  lemma MaskedAt65(rest: string)
    requires rest == "C"
    ensures Decoded(rest, 65, 0) == [2]
  {
    assert Sextet(rest[0]) == Some(2) && rest[1..] == "";
    hide Accumulate, FieldOf, Sextet;
    MaskedAccumulate();
    assert Decoded(rest[1..], 0, 0) == [];
  }

  /** After 13 continuation digits the shift is 65, which the processor takes as 1: the digit
      counts double and not for nothing. */
  lemma ShiftIsMasked(n: nat)
    requires n == 13
    ensures Decoded(Zeros(n) + "C", 0, 0) == [2]
  {
    hide Decoded, Zeros, Sextet, Accumulate;
    ZerosShift(n, "C", 0, 0);
    MaskedAt65("C");
  }
}
