/** JSON string literals: what print_string_ptr writes and what parse_string makes of any text. */
module StringCodec {
  import opened Bytes
  import opened Unicode

  // ----- Writing

  const UPPER_HEX: bytes := Ascii("0123456789ABCDEF")
  const LOWER_HEX: bytes := Ascii("0123456789abcdef")

  function HexDigit(n: nat): (d: byte)
    requires n < 16
    ensures HexValue(d) == Some(n) && d == LOWER_HEX[n]
  {
    if n < 10 then 48 + n else 87 + n
  }

  /** The literal's text for one byte; other control characters become \u00XX in lower case. */
  function EscapeByte(b: byte): bytes {
    if b == QUOTE || b == BACKSLASH then [BACKSLASH, b]
    else if b == 8 then [BACKSLASH, 98]
    else if b == 12 then [BACKSLASH, 102]
    else if b == NEWLINE then [BACKSLASH, 110]
    else if b == RETURN then [BACKSLASH, 114]
    else if b == TAB then [BACKSLASH, 116]
    else if b < 32 then [BACKSLASH, 117, 48, 48, HexDigit(b / 16), HexDigit(b % 16)]
    else [b]
  }

  /** The other control characters are written with four lower-case digits. */
  lemma ControlEscaped(b: byte)
    requires |EscapeByte(b)| > 2
    ensures b < SPACE && EscapeByte(b) == Ascii("\\u00") + [LOWER_HEX[b / 16], LOWER_HEX[b % 16]]
  {
    assert Ascii("\\u00") == [BACKSLASH, 117, 48, 48];
  }

  function Escape(s: bytes): bytes {
    if s == [] then [] else EscapeByte(s[0]) + Escape(s[1..])
  }

  function Quoted(s: bytes): bytes {
    [QUOTE] + Escape(s) + [QUOTE]
  }

  lemma {:induction false} EscapeAppend(s: bytes, t: bytes)
    ensures Escape(s + t) == Escape(s) + Escape(t)
  {
    hide EscapeByte;
    if s == [] {
      assert s + t == t;
    } else {
      EscapeAppend(s[1..], t);
      assert (s + t)[0] == s[0] && (s + t)[1..] == s[1..] + t;
      Assoc(EscapeByte(s[0]), Escape(s[1..]), Escape(t));
    }
  }

  lemma {:induction false} EscapeNulFree(s: bytes)
    ensures NulFree(Escape(s)) && |s| <= |Escape(s)|
  {
    if s != [] {
      EscapeNulFree(s[1..]);
      assert NulFree(EscapeByte(s[0]));
    }
  }

  // ----- Reading

  function HexValue(b: byte): (r: Option<nat>)
    ensures r.Some? ==> r.value < 16
  {
    if 48 <= b <= 57 then Some(b - 48)
    else if 65 <= b <= 70 then Some(b - 55)
    else if 97 <= b <= 102 then Some(b - 87)
    else None
  }

  /** Four hexadecimal digits as a code unit; 0 when one of them is not a digit. */
  function Hex4(c: bytes, i: nat): CodeUnit
    requires i + 4 <= |c|
  {
    var h0, h1, h2, h3 := HexValue(c[i]), HexValue(c[i + 1]), HexValue(c[i + 2]), HexValue(c[i + 3]);
    if h0.Some? && h1.Some? && h2.Some? && h3.Some? then
      h0.value as int * 4096 + h1.value as int * 256 + h2.value as int * 16 + h3.value
    else 0
  }

  predicate IsHex(d: byte) { d in UPPER_HEX || d in LOWER_HEX }

  /** The digit, in either case, stands for n. */
  predicate Hexadecimal(d: byte, n: int) { 0 <= n < 16 && (d == UPPER_HEX[n] || d == LOWER_HEX[n]) }

  /** The four digits at `i` stand for a code unit. */
  predicate SpellsUnit(c: bytes, i: nat, u: CodeUnit) {
    && i + 4 <= |c| && Hexadecimal(c[i], u / 4096) && Hexadecimal(c[i + 1], u / 256 % 16)
    && Hexadecimal(c[i + 2], u / 16 % 16) && Hexadecimal(c[i + 3], u % 16)
  }

  lemma HexRows()
    ensures |UPPER_HEX| == |LOWER_HEX| == 16
    ensures forall n :: 0 <= n < 16 ==>
              UPPER_HEX[n] == (if n < 10 then 48 + n else 55 + n) && LOWER_HEX[n] == (if n < 10 then 48 + n else 87 + n)
  {
  }

  lemma HexDigits(d: byte, n: nat)
    ensures HexValue(d) == Some(n) <==> Hexadecimal(d, n)
  {
    HexRows();
  }

  lemma HexOrNot(d: byte)
    ensures HexValue(d).Some? <==> IsHex(d)
  {
    HexRows();
    var v := HexValue(d);
    if v.Some? { assert d == UPPER_HEX[v.value] || d == LOWER_HEX[v.value]; }
  }

  lemma UnitDigits(u: CodeUnit)
    ensures u as int == u / 4096 * 4096 + u / 256 % 16 * 256 + u / 16 % 16 * 16 + u % 16
  {
    assert u as int == u / 16 * 16 + u % 16 && u / 16 == u / 16 / 16 * 16 + u / 16 % 16;
    assert u / 16 / 16 == u / 256 && u / 256 == u / 256 / 16 * 16 + u / 256 % 16 && u / 256 / 16 == u / 4096;
  }

  /** parse_hex4 gives what four digits stand for, and 0 when one of the bytes is no digit. */
  lemma Hex4Spelled(c: bytes, i: nat, u: CodeUnit)
    requires i + 4 <= |c|
    ensures SpellsUnit(c, i, u) ==> Hex4(c, i) == u
    ensures !(IsHex(c[i]) && IsHex(c[i + 1]) && IsHex(c[i + 2]) && IsHex(c[i + 3])) ==> Hex4(c, i) == 0
  {
    hide Hexadecimal, HexValue, IsHex;
    UnitDigits(u);
    forall k | i <= k < i + 4 ensures HexValue(c[k]).Some? <==> IsHex(c[k]) { HexOrNot(c[k]); }
    HexDigits(c[i], u / 4096);
    HexDigits(c[i + 1], u / 256 % 16);
    HexDigits(c[i + 2], u / 16 % 16);
    HexDigits(c[i + 3], u % 16);
  }

  datatype Literal = Literal(length: nat, scalar: Scalar) | BadLiteral

  /** The character written by the one or two \uXXXX groups at `i` in a literal that ends at `end`. */
  function Utf16Literal(c: bytes, i: nat, end: nat): (r: Literal)
    requires i <= end <= |c|
    ensures r.Literal? ==> r.length == if r.scalar < 0x10000 then 6 else 12
    ensures r.Literal? ==> i + r.length <= end
  {
    if end - i < 6 then BadLiteral
    else
      var first := Hex4(c, i + 2);
      if IsLow(first) then BadLiteral
      else if IsHigh(first) then
        if end - (i + 6) < 6 || c[i + 6] != BACKSLASH || c[i + 7] != 117 then BadLiteral
        else
          var second := Hex4(c, i + 8);
          if !IsLow(second) then BadLiteral else Literal(12, PairValue(first, second))
      else Literal(6, first)
  }

  /** The one-character escapes. */
  function Unescape(b: byte): Option<byte> {
    if b == 98 then Some(8)
    else if b == 102 then Some(12)
    else if b == 110 then Some(NEWLINE)
    else if b == 114 then Some(RETURN)
    else if b == 116 then Some(TAB)
    else if b == QUOTE || b == BACKSLASH || b == SLASH then Some(b)
    else None
  }

  const SHORT_LETTERS: bytes := Ascii("\"\\/bfnrt")
  const SHORT_MEANINGS: bytes := [34, 92, 47, 8, 12, 10, 13, 9]

  /** The one-character escapes of RFC 8259, section 7. */
  predicate ShortFor(letter: byte, b: byte) {
    exists k :: 0 <= k < 8 && letter == SHORT_LETTERS[k] && b == SHORT_MEANINGS[k]
  }

  lemma ShortEscapes(letter: byte, b: byte)
    ensures Unescape(letter) == Some(b) <==> ShortFor(letter, b)
    ensures Unescape(letter).Some? <==> letter in SHORT_LETTERS
  {
    var t := SHORT_LETTERS;
    assert t[0] == 34 && t[1] == 92 && t[2] == 47 && t[3] == 98 && t[4] == 102 && t[5] == 110 && t[6] == 114 &&
           t[7] == 116;
  }

  /** Where the literal whose characters start at `i` is closed: the first quote that no
      backslash, read pairwise from `i`, takes with it. */
  function LiteralEnd(c: bytes, i: nat): (r: Option<nat>)
    requires i <= |c|
    ensures r.Some? ==> i <= r.value < |c| && c[r.value] == QUOTE
    decreases |c| - i
  {
    if i >= |c| then None
    else if c[i] == QUOTE then Some(i)
    else if c[i] == BACKSLASH then
      if i + 1 >= |c| then None else LiteralEnd(c, i + 2)
    else LiteralEnd(c, i + 1)
  }

  datatype Decoded = Decoded(text: bytes) | Undecodable(where: nat)
  {
    function Prepend(s: bytes): Decoded {
      if Decoded? then Decoded(s + text) else this
    }
  }

  /** The decoding pass from `i` on. It pairs backslashes on its own, so it may step over `end` by one. */
  function Decode(c: bytes, i: nat, end: nat): Decoded
    requires end < |c|
    decreases end - i
  {
    if i >= end then Decoded([])
    else if c[i] != BACKSLASH then Decode(c, i + 1, end).Prepend([c[i]])
    else if c[i + 1] == 117 then
      match Utf16Literal(c, i, end) {
        case BadLiteral => Undecodable(i)
        case Literal(n, x) => Decode(c, i + n, end).Prepend(Utf8(x))
      }
    else
      match Unescape(c[i + 1]) {
        case None => Undecodable(i)
        case Some(b) => Decode(c, i + 2, end).Prepend([b])
      }
  }

  datatype StringResult = StringRead(text: bytes, offset: nat) | StringFailed(offset: nat)

  /** parse_string at offset `o`: the bytes written and the offset after the literal, or the failure offset. */
  function ReadString(c: bytes, o: nat): (r: StringResult)
    requires o < |c|
    ensures r.StringRead? ==> o + 2 <= r.offset <= |c| && c[o] == QUOTE && c[r.offset - 1] == QUOTE
  {
    if c[o] != QUOTE then StringFailed(o + 1)
    else
      match LiteralEnd(c, o + 1) {
        case None => StringFailed(o + 1)
        case Some(end) =>
          match Decode(c, o + 1, end) {
            case Undecodable(where) => StringFailed(where)
            case Decoded(text) => StringRead(text, end + 1)
          }
      }
  }

  // ----- Reading undoes writing

  lemma EscapedByteReads(c: bytes, i: nat, b: byte, end: nat)
    requires b != NUL && At(c, i, EscapeByte(b)) && i + |EscapeByte(b)| <= end < |c|
    ensures LiteralEnd(c, i) == LiteralEnd(c, i + |EscapeByte(b)|)
    ensures Decode(c, i, end) == Decode(c, i + |EscapeByte(b)|, end).Prepend([b])
  {
    var t := EscapeByte(b);
    forall k: nat | k < |t| ensures c[i + k] == t[k] { AtIndex(c, i, t, k); }
    assert c[i] == t[0];
    if |t| > 1 {
      assert c[i + 1] == t[1];
      if |t| == 6 {
        assert c[i + 2] == t[2] && c[i + 3] == t[3] && c[i + 4] == t[4] && c[i + 5] == t[5];
        assert HexValue(c[i + 4]) == Some(b / 16) && HexValue(c[i + 5]) == Some(b % 16);
        assert Hex4(c, i + 2) == b;
        assert LiteralEnd(c, i) == LiteralEnd(c, i + 2) == LiteralEnd(c, i + 3) == LiteralEnd(c, i + 4);
        assert LiteralEnd(c, i + 4) == LiteralEnd(c, i + 5) == LiteralEnd(c, i + 6);
      }
    }
  }

  lemma EmptyReads(c: bytes, i: nat)
    requires At(c, i, [] + [QUOTE])
    ensures i < |c| && LiteralEnd(c, i) == Some(i) && Decode(c, i, i) == Decoded([])
  {
    AtIndex(c, i, [] + [QUOTE], 0);
  }

  lemma LiteralInside(c: bytes, i: nat, t: bytes)
    requires At(c, i, t + [QUOTE])
    ensures i + |t| < |c|
  {
  }

  lemma {:induction false} EscapedReads(c: bytes, i: nat, s: bytes)
    requires NulFree(s) && At(c, i, Escape(s) + [QUOTE])
    ensures LiteralEnd(c, i) == Some(i + |Escape(s)|)
    ensures Decode(c, i, i + |Escape(s)|) == Decoded(s)
    decreases |s|
  {
    hide EscapeByte, LiteralEnd, Decode, At;
    if s == [] {
      EmptyReads(c, i);
    } else {
      var t := EscapeByte(s[0]);
      Assoc(t, Escape(s[1..]), [QUOTE]);
      AtSplit(c, i, t, Escape(s[1..]) + [QUOTE]);
      EscapedReads(c, i + |t|, s[1..]);
      LiteralInside(c, i, Escape(s));
      EscapedByteReads(c, i, s[0], i + |Escape(s)|);
      assert [s[0]] + s[1..] == s;
    }
  }

  /** Whatever follows it, the printed form of a C string is read back as that string, and no further. */
  lemma StringRoundTrip(c: bytes, o: nat, s: bytes)
    requires NulFree(s) && At(c, o, Quoted(s))
    ensures ReadString(c, o) == StringRead(s, o + |Quoted(s)|)
  {
    hide Escape, LiteralEnd, Decode;
    var e := Escape(s);
    assert [QUOTE] + e + [QUOTE] == [QUOTE] + (e + [QUOTE]);
    AtIndex(c, o, [QUOTE] + (e + [QUOTE]), 0);
    AtSplit(c, o, [QUOTE], e + [QUOTE]);
    EscapedReads(c, o + 1, s);
  }

  /** So the printed form determines the string. */
  lemma QuotedInjective(s: bytes, t: bytes)
    requires NulFree(s) && NulFree(t) && Quoted(s) == Quoted(t)
    ensures s == t
  {
    StringRoundTrip(Quoted(s), 0, s);
    StringRoundTrip(Quoted(s), 0, t);
  }

  // ----- The two passes of parse_string

  /** Whether the sizing pass, started at `a`, takes the byte at `i` together with a backslash before it. */
  predicate Escaped(c: bytes, a: nat, i: nat)
    requires a <= i <= |c|
    decreases i
  {
    i > a && c[i - 1] == BACKSLASH && !Escaped(c, a, i - 1)
  }

  /** The escapes the sizing pass has counted before `i`. */
  function Skips(c: bytes, a: nat, i: nat): (n: nat)
    requires a <= i <= |c|
    decreases i
  {
    if i == a then 0 else Skips(c, a, i - 1) + (if Escaped(c, a, i) then 1 else 0)
  }

  /** Of n consecutive bytes at most (n+1)/2 open an escape: the slack that lets a decoding pass
      that is out of step with the sizing pass stay inside its allocation. */
  lemma {:induction false} SkipsBetween(c: bytes, a: nat, i: nat, j: nat)
    requires a <= i <= j <= |c|
    ensures Skips(c, a, i) <= Skips(c, a, j)
    ensures 2 * (Skips(c, a, j) - Skips(c, a, i)) <= j - i +
            (if Escaped(c, a, j) then 1 else 0) - (if Escaped(c, a, i) then 1 else 0)
    decreases j
  {
    if i < j {
      SkipsBetween(c, a, i, j - 1);
    }
  }
}
