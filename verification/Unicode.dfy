/** The encodings parse_string converts between, as their standards define them:
    UTF-8 (RFC 3629, section 3) and UTF-16 (RFC 2781, sections 2.1 and 2.2). */
module Unicode {
  import opened Bytes

  type CodeUnit = u: int | 0 <= u < 0x10000
  /** A Unicode scalar value: any code point that is not a surrogate. */
  type Scalar = x: int | 0 <= x < 0xD800 || 0xE000 <= x < 0x110000

  predicate IsHigh(u: CodeUnit) { 0xD800 <= u < 0xDC00 }
  predicate IsLow(u: CodeUnit) { 0xDC00 <= u < 0xE000 }

  /** RFC 3629: the octet sequence of one character. */
  function Utf8(x: Scalar): (r: bytes)
    ensures 1 <= |r| <= 4
  {
    if x < 0x80 then [x]
    else if x < 0x800 then [0xC0 + x / 64, 0x80 + x % 64]
    else if x < 0x10000 then [0xE0 + x / 4096, 0x80 + x / 64 % 64, 0x80 + x % 64]
    else [0xF0 + x / 262144, 0x80 + x / 4096 % 64, 0x80 + x / 64 % 64, 0x80 + x % 64]
  }

  function Utf8All(xs: seq<Scalar>): bytes {
    if xs == [] then [] else Utf8(xs[0]) + Utf8All(xs[1..])
  }

  predicate IsTail(b: byte) { 0x80 <= b < 0xC0 }

  /** Reading one character back, by the grammar of RFC 3629, section 4, which leaves no second way to
      write a character and no surrogates. */
  function FromUtf8(s: bytes): Option<int> {
    if |s| == 1 && s[0] < 0x80 then Some(s[0])
    else if |s| == 2 && 0xC2 <= s[0] < 0xE0 && IsTail(s[1]) then
      Some((s[0] as int - 0xC0) * 64 + (s[1] as int - 0x80))
    else if |s| == 3 && 0xE0 <= s[0] < 0xF0 && IsTail(s[1]) && IsTail(s[2])
            && (s[0] == 0xE0 ==> s[1] >= 0xA0) && (s[0] == 0xED ==> s[1] < 0xA0) then
      Some((s[0] as int - 0xE0) * 4096 + (s[1] as int - 0x80) * 64 + (s[2] as int - 0x80))
    else if |s| == 4 && 0xF0 <= s[0] < 0xF5 && IsTail(s[1]) && IsTail(s[2]) && IsTail(s[3])
            && (s[0] == 0xF0 ==> s[1] >= 0x90) && (s[0] == 0xF4 ==> s[1] < 0x90) then
      Some((s[0] as int - 0xF0) * 262144 + (s[1] as int - 0x80) * 4096 + (s[2] as int - 0x80) * 64 +
        (s[3] as int - 0x80))
    else None
  }

  lemma Utf8RoundTrip(x: Scalar)
    ensures FromUtf8(Utf8(x)) == Some(x)
  {
    if x >= 0x800 {
      assert x == x / 64 * 64 + x % 64;
      assert x / 64 == x / 64 / 64 * 64 + x / 64 % 64 && x / 64 / 64 == x / 4096;
      if x >= 0x10000 {
        assert x / 4096 == x / 4096 / 64 * 64 + x / 4096 % 64 && x / 4096 / 64 == x / 262144;
      }
    }
  }

  /** And only the octets of a character are read as it. */
  lemma Utf8Only(s: bytes, x: Scalar)
    requires FromUtf8(s) == Some(x)
    ensures s == Utf8(x)
  {
    if |s| == 2 {
      Split(x, s[0] as int - 0xC0, s[1] as int - 0x80);
    } else if |s| == 3 {
      var high := (s[0] as int - 0xE0) * 64 + (s[1] as int - 0x80);
      Split(x, high, s[2] as int - 0x80);
      Split(high, s[0] as int - 0xE0, s[1] as int - 0x80);
    } else if |s| == 4 {
      var high := (s[0] as int - 0xF0) * 64 + (s[1] as int - 0x80);
      var middle := high * 64 + (s[2] as int - 0x80);
      Split(x, middle, s[3] as int - 0x80);
      Split(middle, high, s[2] as int - 0x80);
      Split(high, s[0] as int - 0xF0, s[1] as int - 0x80);
    }
  }

  lemma Split(x: int, high: int, low: int)
    requires x == high * 64 + low && 0 <= low < 64
    ensures x / 64 == high && x % 64 == low && x / 4096 == high / 64 && x / 262144 == high / 4096
  {
  }

  /** RFC 2781, section 2.1: one code unit, or a surrogate pair above U+FFFF. */
  function Utf16(x: Scalar): seq<CodeUnit> {
    if x < 0x10000 then [x]
    else [0xD800 + (x - 0x10000) / 1024, 0xDC00 + (x - 0x10000) % 1024]
  }

  function Utf16All(xs: seq<Scalar>): seq<CodeUnit> {
    if xs == [] then [] else Utf16(xs[0]) + Utf16All(xs[1..])
  }

  function PairValue(high: CodeUnit, low: CodeUnit): (x: Scalar)
    requires IsHigh(high) && IsLow(low)
    ensures x >= 0x10000
  {
    0x10000 + (high as int - 0xD800) * 1024 + (low as int - 0xDC00)
  }

  /** RFC 2781, section 2.2: decoding, with None for a lone surrogate. */
  function FromUtf16(us: seq<CodeUnit>): Option<seq<Scalar>> {
    if us == [] then Some([])
    else if IsLow(us[0]) then None
    else if IsHigh(us[0]) then
      if |us| == 1 || !IsLow(us[1]) then None
      else
        var rest := FromUtf16(us[2..]);
        if rest.None? then None else Some([PairValue(us[0], us[1])] + rest.value)
    else
      var rest := FromUtf16(us[1..]);
      if rest.None? then None else Some([us[0]] + rest.value)
  }

  /** A pair carries the number above U+FFFF ten bits at a time; and it decodes to what is written as it. */
  lemma Utf16Pair(x: Scalar, high: CodeUnit, low: CodeUnit)
    ensures x >= 0x10000 ==>
              && |Utf16(x)| == 2 && IsHigh(Utf16(x)[0]) && IsLow(Utf16(x)[1])
              && x == 65536 + (Utf16(x)[0] as int - 55296) * 1024 + (Utf16(x)[1] as int - 56320)
    ensures IsHigh(high) && IsLow(low) ==> Utf16(PairValue(high, low)) == [high, low]
  {
  }

  /** The ends of the range that takes pairs, and the example of section 6 of RFC 2781. */
  lemma Utf16Examples()
    ensures Utf16(0xFFFF) == [0xFFFF] && Utf16(0x10000) == [0xD800, 0xDC00] && Utf16(0x10FFFF) == [0xDBFF, 0xDFFF]
    ensures Utf16(0x12345) == [0xD808, 0xDF45]
  {
  }

  lemma {:induction false} Utf16RoundTrip(xs: seq<Scalar>)
    ensures FromUtf16(Utf16All(xs)) == Some(xs)
  {
    if xs != [] {
      var us, rest := Utf16All(xs), Utf16All(xs[1..]);
      Utf16RoundTrip(xs[1..]);
      assert us == Utf16(xs[0]) + rest;
      if xs[0] < 0x10000 {
        assert us[0] == xs[0] && us[1..] == rest;
      } else {
        var y: int := xs[0] as int - 0x10000;
        assert y == y / 1024 * 1024 + y % 1024;
        assert us[0] == 0xD800 + y / 1024 && us[1] == 0xDC00 + y % 1024 && us[2..] == rest;
      }
      assert xs == [xs[0]] + xs[1..];
    }
  }
}
