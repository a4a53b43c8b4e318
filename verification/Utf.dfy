/** The UTF-16 and UTF-8 arithmetic of json.hpp, and well-formed UTF-8 as section 4 of
    RFC 3629 defines it. Bytes are characters below 256. */
module Utf {

  datatype Utf16Range = Bmp | High | Low

  // utf16_check
  function Utf16Check(code: nat): Utf16Range {
    if 0xD800 <= code <= 0xDBFF then High else if 0xDC00 <= code <= 0xDFFF then Low else Bmp
  }

  // utf16_surrogate_pair_to_code_point
  function PairToCodePoint(high: nat, low: nat): nat
    requires Utf16Check(high).High? && Utf16Check(low).Low?
  {
    0x10000 + 0x400 * (high - 0xD800) + (low - 0xDC00)
  }

  // The surrogate pair of section 2.1 of RFC 2781.
  function CodePointToPair(cp: nat): (nat, nat)
    requires 0x10000 <= cp <= 0x10FFFF
  {
    (0xD800 + (cp - 0x10000) / 0x400, 0xDC00 + (cp - 0x10000) % 0x400)
  }

  /** Surrogate pairs and the code points from 0x10000 to 0x10FFFF correspond one to one. */
  lemma PairsAreCodePoints(high: nat, low: nat)
    requires Utf16Check(high).High? && Utf16Check(low).Low?
    ensures 0x10000 <= PairToCodePoint(high, low) <= 0x10FFFF
    ensures CodePointToPair(PairToCodePoint(high, low)) == (high, low)
  {}

  lemma CodePointsArePairs(cp: nat)
    requires 0x10000 <= cp <= 0x10FFFF
    ensures var (high, low) := CodePointToPair(cp);
            && Utf16Check(high).High? && Utf16Check(low).Low?
            && PairToCodePoint(high, low) == cp
  {}

  function Byte(n: nat): char
    requires n < 256
  {
    n as char
  }

  /** What utf32_to_utf8 writes. The bit fields it joins with | do not overlap, so they are
      joined with + here, and shifts and masks are divisions and remainders. */
  function Utf8Of(cp: nat): (s: string)
    requires cp <= 0x10FFFF
    ensures 1 <= |s| <= 4
  {
    if cp <= 0x7F then [Byte(cp)]
    else if cp <= 0x7FF then [Byte(0xC0 + cp / 64), Byte(0x80 + cp % 64)]
    else if cp <= 0xFFFF then [Byte(0xE0 + cp / 4096), Byte(0x80 + cp / 64 % 64), Byte(0x80 + cp % 64)]
    else [Byte(0xF0 + cp / 262144), Byte(0x80 + cp / 4096 % 64), Byte(0x80 + cp / 64 % 64), Byte(0x80 + cp % 64)]
  }

  /** utf32_to_utf8: fills the buffer and returns how much of it is used. */
  method Utf32ToUtf8(cp: nat, buffer: array<char>) returns (size: nat)
    requires cp <= 0x10FFFF && buffer.Length == 4
    modifies buffer
    ensures size <= 4 && buffer[..size] == Utf8Of(cp)
    ensures forall i :: size <= i < 4 ==> buffer[i] == old(buffer[i])
  {
    if cp <= 0x7F {
      buffer[0] := Byte(cp);
      return 1;
    }
    if cp <= 0x7FF {
      buffer[0] := Byte(0xC0 + cp / 64);
      buffer[1] := Byte(0x80 + cp % 64);
      return 2;
    }
    if cp <= 0xFFFF {
      buffer[0] := Byte(0xE0 + cp / 4096);
      buffer[1] := Byte(0x80 + cp / 64 % 64);
      buffer[2] := Byte(0x80 + cp % 64);
      return 3;
    }
    buffer[0] := Byte(0xF0 + cp / 262144);
    buffer[1] := Byte(0x80 + cp / 4096 % 64);
    buffer[2] := Byte(0x80 + cp / 64 % 64);
    buffer[3] := Byte(0x80 + cp % 64);
    return 4;
  }

  // ---------------------------------------------------------------- well-formed UTF-8

  predicate IsCont(c: char) {
    0x80 <= c as int <= 0xBF
  }

  // How many continuation bytes a leading byte asks for, or None if it cannot lead.
  function Trail(c: char): (n: nat)
    ensures n <= 3
  {
    var b := c as int;
    if 0xC2 <= b <= 0xDF then 1 else if 0xE0 <= b <= 0xEF then 2 else if 0xF0 <= b <= 0xF4 then 3 else 0
  }

  // The extra bounds on the second byte: no overlong forms, surrogates or values past 0x10FFFF.
  predicate SecondFits(c: char, d: char) {
    var a, b := c as int, d as int;
    && (a == 0xE0 ==> b >= 0xA0) && (a == 0xED ==> b <= 0x9F)
    && (a == 0xF0 ==> b >= 0x90) && (a == 0xF4 ==> b <= 0x8F)
  }

  predicate Conts(s: string, n: nat) {
    n <= |s| && forall i :: 0 <= i < n ==> IsCont(s[i])
  }

  /** Length of the well-formed character at the front of s, or 0. */
  function HeadLen(s: string): (n: nat)
    ensures n <= |s|
  {
    if s == "" then 0
    else if s[0] as int <= 0x7F then 1
    else
      var n := Trail(s[0]);
      if n > 0 && Conts(s[1..], n) && SecondFits(s[0], s[1]) then n + 1 else 0
  }

  predicate Utf8(s: string) {
    s == "" || (HeadLen(s) > 0 && Utf8(s[HeadLen(s)..]))
  }

  // The scalar value of one well-formed character.
  function ScalarOf(s: string): int {
    if |s| == 1 then s[0] as int
    else if |s| == 2 then (s[0] as int - 0xC0) * 64 + (s[1] as int - 0x80)
    else if |s| == 3 then (s[0] as int - 0xE0) * 4096 + (s[1] as int - 0x80) * 64 + (s[2] as int - 0x80)
    else if |s| == 4 then
      (s[0] as int - 0xF0) * 262144 + (s[1] as int - 0x80) * 4096 + (s[2] as int - 0x80) * 64 + (s[3] as int - 0x80)
    else -1
  }

  lemma Shifts(cp: nat)
    requires cp <= 0x10FFFF
    ensures cp / 4096 == cp / 64 / 64 && cp / 262144 == cp / 64 / 64 / 64
  {}

  // The bytes of one character of each length, from its digits in base 64.
  lemma TwoBytes(a: nat, b: nat, s: string)
    requires 2 <= a < 32 && b < 64 && |s| >= 2 && s[0] == Byte(0xC0 + a) && s[1] == Byte(0x80 + b)
    ensures HeadLen(s) == 2 && ScalarOf(s[..2]) == a * 64 + b
  {}

  lemma ThreeBytes(a: nat, b: nat, c: nat, s: string)
    requires a < 16 && b < 64 && c < 64 && (a == 0 ==> b >= 32) && (a == 13 ==> b < 32)
    requires |s| >= 3 && s[0] == Byte(0xE0 + a) && s[1] == Byte(0x80 + b) && s[2] == Byte(0x80 + c)
    ensures HeadLen(s) == 3 && ScalarOf(s[..3]) == a * 4096 + b * 64 + c
  {}

  lemma FourBytes(a: nat, b: nat, c: nat, d: nat, s: string)
    requires a < 5 && b < 64 && c < 64 && d < 64 && (a == 0 ==> b >= 16) && (a == 4 ==> b < 16)
    requires |s| >= 4 && s[0] == Byte(0xF0 + a) && s[1] == Byte(0x80 + b) && s[2] == Byte(0x80 + c)
             && s[3] == Byte(0x80 + d)
    ensures HeadLen(s) == 4 && ScalarOf(s[..4]) == a * 262144 + b * 4096 + c * 64 + d
  {}

  /** Every scalar value (surrogates are none) is written as one well-formed character that
      stands for it. */
  lemma Utf8OfIsWellFormed(cp: nat, t: string)
    requires cp <= 0x10FFFF && Utf16Check(cp).Bmp?
    ensures HeadLen(Utf8Of(cp) + t) == |Utf8Of(cp)| && ScalarOf(Utf8Of(cp)) == cp
    ensures !IsCont(Utf8Of(cp)[0])
  {
    var u := Utf8Of(cp);
    assert (u + t)[..|u|] == u;
    Shifts(cp);
    var q := cp / 64;
    if cp <= 0x7F {
    } else if cp <= 0x7FF {
      TwoBytes(q, cp % 64, u + t);
    } else if cp <= 0xFFFF {
      ThreeBytes(q / 64, q % 64, cp % 64, u + t);
    } else {
      FourBytes(q / 64 / 64, q / 64 % 64, q % 64, cp % 64, u + t);
    }
  }

  // A well-formed character in front of a text does not change whether it is well-formed.
  lemma Utf8Skips(a: string, t: string)
    requires HeadLen(a + t) == |a| > 0
    ensures Utf8(a + t) == Utf8(t)
  {
    assert (a + t)[|a|..] == t;
  }

  lemma {:induction false} Utf8SkipsAscii(a: string, t: string)
    requires forall i :: 0 <= i < |a| ==> a[i] as int <= 0x7F
    ensures Utf8(a + t) == Utf8(t)
  {
    if a == "" {
      assert a + t == t;
    } else {
      assert (a + t)[1..] == a[1..] + t;
      Utf8SkipsAscii(a[1..], t);
    }
  }
}
