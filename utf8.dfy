/**
 * Go strings are byte sequences. This module gives the two places where the
 * Go runtime turns runes into bytes and back, as the session code relies on them:
 * the conversion `string(r)` of a rune (UTF-8 encoding) and the rune-by-rune
 * iteration `for _, r := range s` (UTF-8 decoding, one rune at a time).
 */
module Utf8 {

  type Byte = b: int | 0 <= b < 0x100
  type Bytes = seq<Byte>

  /** Go's `rune`: a signed 32-bit integer. */
  type Rune = r: int | -0x8000_0000 <= r < 0x8000_0000

  /** U+FFFD, what Go substitutes for an invalid rune or an ill-formed byte. */
  const RuneError: Rune := 0xFFFD

  /** A Unicode scalar value: a code point that is not a surrogate. */
  predicate IsScalar(r: int) {
    0 <= r <= 0x10FFFF && !(0xD800 <= r <= 0xDFFF)
  }

  /** The rune that `string(r)` actually encodes. */
  function Canonical(r: Rune): Rune {
    if IsScalar(r) then r else RuneError
  }

  predicate IsContinuation(b: Byte) {
    0x80 <= b <= 0xBF
  }

  /**
   * Go's `string(r)`: the UTF-8 form of r, one to four bytes, a leading byte
   * first and continuation bytes after it; an invalid r becomes U+FFFD.
   */
  function EncodeRune(r: Rune): (s: Bytes)
    ensures 1 <= |s| <= 4
    ensures |s| == 1 <==> 0 <= r < 0x80
    ensures !IsContinuation(s[0])
    ensures forall i :: 1 <= i < |s| ==> IsContinuation(s[i])
  {
    if !IsScalar(r) then [0xEF, 0xBF, 0xBD]
    else if r < 0x80 then [r]
    else if r < 0x800 then [0xC0 + r / 0x40, 0x80 + r % 0x40]
    else if r < 0x10000 then [0xE0 + r / 0x1000, 0x80 + r / 0x40 % 0x40, 0x80 + r % 0x40]
    else [0xF0 + r / 0x40000, 0x80 + r / 0x1000 % 0x40, 0x80 + r / 0x40 % 0x40, 0x80 + r % 0x40]
  }

  /** One decoding step: the rune found at the front of a string and how many bytes it took. */
  datatype Decoded = Decoded(rune: Rune, size: nat)

  /**
   * Go's utf8.DecodeRune on a non-empty string (the step `range` takes): a
   * well-formed sequence yields its scalar value; a stray, overlong, surrogate,
   * out-of-range or truncated sequence yields U+FFFD and consumes one byte.
   */
  function DecodeRune(s: Bytes): (d: Decoded)
    requires |s| > 0
    ensures 1 <= d.size <= 4 && d.size <= |s|
    ensures IsScalar(d.rune)
    ensures d.size == 1 && 0x80 <= s[0] ==> d.rune == RuneError
    ensures s[0] < 0x80 ==> d.rune == s[0]
  {
    var b0: int := s[0];
    if b0 < 0x80 then Decoded(b0, 1)
    else if b0 < 0xC2 || 0xF4 < b0 then Decoded(RuneError, 1)
    else
      var n := if b0 < 0xE0 then 2 else if b0 < 0xF0 then 3 else 4;
      var lo := if b0 == 0xE0 then 0xA0 else if b0 == 0xF0 then 0x90 else 0x80;
      var hi := if b0 == 0xED then 0x9F else if b0 == 0xF4 then 0x8F else 0xBF;
      if |s| < n || s[1] < lo || hi < s[1] then Decoded(RuneError, 1)
      else
        var b1: int := s[1];
        if n == 2 then Decoded((b0 - 0xC0) * 0x40 + (b1 - 0x80), 2)
        else if !IsContinuation(s[2]) then Decoded(RuneError, 1)
        else
          var b2: int := s[2];
          if n == 3 then Decoded((b0 - 0xE0) * 0x1000 + (b1 - 0x80) * 0x40 + (b2 - 0x80), 3)
          else if !IsContinuation(s[3]) then Decoded(RuneError, 1)
          else
            var b3: int := s[3];
            Decoded((b0 - 0xF0) * 0x40000 + (b1 - 0x80) * 0x1000 + (b2 - 0x80) * 0x40 + (b3 - 0x80), 4)
  }

  /** The runes `for _, r := range s` visits, in order. */
  function Decode(s: Bytes): (rs: seq<Rune>)
    ensures |rs| <= |s|
    ensures |rs| == 0 <==> |s| == 0
    decreases |s|
  {
    if s == [] then [] else
    var d := DecodeRune(s);
    [d.rune] + Decode(s[d.size..])
  }

  lemma DecodeTwo(r: Rune)
    requires 0x80 <= r < 0x800
    ensures DecodeRune(EncodeRune(r)) == Decoded(r, 2)
  {
    var s := EncodeRune(r);
    assert s == [0xC0 + r / 0x40, 0x80 + r % 0x40];
    assert (r / 0x40) * 0x40 + r % 0x40 == r;
  }

  lemma DecodeThree(r: Rune)
    requires 0x800 <= r < 0x10000 && IsScalar(r)
    ensures DecodeRune(EncodeRune(r)) == Decoded(r, 3)
  {
    var s := EncodeRune(r);
    var q, m := r / 0x40, r % 0x40;
    assert s == [0xE0 + q / 0x40, 0x80 + q % 0x40, 0x80 + m];
    assert q * 0x40 + m == r;
    assert (q / 0x40) * 0x40 + q % 0x40 == q;
    assert r / 0x1000 == q / 0x40;
  }

  lemma DecodeFour(r: Rune)
    requires 0x10000 <= r && IsScalar(r)
    ensures DecodeRune(EncodeRune(r)) == Decoded(r, 4)
  {
    var s := EncodeRune(r);
    var q1, m1 := r / 0x40, r % 0x40;
    var q2, m2 := q1 / 0x40, q1 % 0x40;
    assert r / 0x1000 == q2;
    assert r / 0x40000 == q2 / 0x40;
    assert s == [0xF0 + q2 / 0x40, 0x80 + q2 % 0x40, 0x80 + m2, 0x80 + m1];
    assert q1 * 0x40 + m1 == r;
    assert q2 * 0x40 + m2 == q1;
    assert (q2 / 0x40) * 0x40 + q2 % 0x40 == q2;
  }

  /** Decoding what `string(r)` produced gives back r (or U+FFFD), consuming all of it. */
  lemma DecodeEncode(r: Rune)
    ensures DecodeRune(EncodeRune(r)) == Decoded(Canonical(r), |EncodeRune(r)|)
    ensures Decode(EncodeRune(r)) == [Canonical(r)]
  {
    var s := EncodeRune(r);
    if !IsScalar(r) {
      assert DecodeRune(s) == Decoded(RuneError, 3);
    } else if r < 0x80 {
    } else if r < 0x800 {
      DecodeTwo(r);
    } else if r < 0x10000 {
      DecodeThree(r);
    } else {
      DecodeFour(r);
    }
    assert s[|s|..] == [];
  }

  /**
   * Bytes appended after a string never change how the string's own bytes
   * decode, provided the appended part does not start with a continuation byte.
   */
  lemma DecodeRuneAppend(a: Bytes, b: Bytes)
    requires |a| > 0
    requires b == [] || !IsContinuation(b[0])
    ensures DecodeRune(a + b) == DecodeRune(a)
  {
    if b != [] {
      var s := a + b;
      assert s[..|a|] == a;
      assert s[|a|] == b[0];
    } else {
      assert a + b == a;
    }
  }

  lemma {:induction false} DecodeAppend(a: Bytes, b: Bytes)
    requires b == [] || !IsContinuation(b[0])
    ensures Decode(a + b) == Decode(a) + Decode(b)
    decreases |a|
  {
    if a == [] {
      assert a + b == b;
    } else {
      var d := DecodeRune(a);
      DecodeRuneAppend(a, b);
      assert (a + b)[d.size..] == a[d.size..] + b;
      DecodeAppend(a[d.size..], b);
    }
  }

  /** Appending `string(r)` to any string appends exactly one rune to what `range` visits. */
  lemma DecodeAppendRune(a: Bytes, r: Rune)
    ensures Decode(a + EncodeRune(r)) == Decode(a) + [Canonical(r)]
  {
    DecodeAppend(a, EncodeRune(r));
    DecodeEncode(r);
  }
}
