/** parse_string's machinery as it runs: the hexadecimal reader, the UTF-16 to UTF-8 writer, the
    sizing pass and the decoding pass into a buffer of exactly the size the first pass computed. */
module StringReader {
  import opened Bytes
  import opened Unicode
  import opened StringCodec

  method ParseHex4(c: bytes, i: nat) returns (h: nat)
    requires i + 4 <= |c|
    ensures h == Hex4(c, i)
    ensures forall u: CodeUnit :: SpellsUnit(c, i, u) ==> h == u
    ensures !(IsHex(c[i]) && IsHex(c[i + 1]) && IsHex(c[i + 2]) && IsHex(c[i + 3])) ==> h == 0
  {
    hide HexValue, Hex4, SpellsUnit, IsHex;
    forall u: CodeUnit ensures SpellsUnit(c, i, u) ==> Hex4(c, i) == u { Hex4Spelled(c, i, u); }
    Hex4Spelled(c, i, 0);
    h := 0;
    var k: nat := 0;
    while k < 4
      invariant k <= 4
      invariant forall j :: i <= j < i + k ==> HexValue(c[j]).Some?
      invariant h == HexPrefix(c, i, k) * (if 0 < k < 4 then 16 else 1)
    {
      var d := HexValue(c[i + k]);
      if d.None? {
        BadHex(c, i, k);
        return 0;
      }
      h := h + d.value;
      if k < 3 { h := h * 16; }
      k := k + 1;
    }
    GoodHex(c, i);
  }

  lemma BadHex(c: bytes, i: nat, k: nat)
    requires i + 4 <= |c| && k < 4 && HexValue(c[i + k]).None?
    ensures Hex4(c, i) == 0
  {
  }

  lemma GoodHex(c: bytes, i: nat)
    requires i + 4 <= |c| && forall j :: i <= j < i + 4 ==> HexValue(c[j]).Some?
    ensures HexPrefix(c, i, 4) == Hex4(c, i)
  {
    hide HexValue;
    assert HexPrefix(c, i, 1) == HexValue(c[i]).value;
    assert HexPrefix(c, i, 2) == HexPrefix(c, i, 1) * 16 + HexValue(c[i + 1]).value;
    assert HexPrefix(c, i, 3) == HexPrefix(c, i, 2) * 16 + HexValue(c[i + 2]).value;
  }

  ghost function HexPrefix(c: bytes, i: nat, k: nat): nat
    requires i + k <= |c| && forall j :: i <= j < i + k ==> HexValue(c[j]).Some?
  {
    if k == 0 then 0 else HexPrefix(c, i, k - 1) * 16 + HexValue(c[i + k - 1]).value
  }

  /** x shifted right by j six-bit groups. */
  ghost function Groups(x: nat, j: nat): nat {
    if j == 0 then x else Groups(x, j - 1) / 64
  }

  lemma Utf8Groups(x: Scalar)
    ensures var n := |Utf8(x)|;
            && (forall k :: 1 <= k < n ==> Utf8(x)[k] == 0x80 + Groups(x, n - 1 - k) % 64)
            && n == (if x < 0x80 then 1 else if x < 0x800 then 2 else if x < 0x10000 then 3 else 4)
            && Utf8(x)[0] ==
               (if n == 1 then 0 else if n == 2 then 0xC0 else if n == 3 then 0xE0 else 0xF0) + Groups(x, n - 1)
  {
    assert Groups(x, 1) == x / 64;
    assert Groups(x, 2) == x / 64 / 64 == x / 4096;
    assert Groups(x, 3) == x / 4096 / 64 == x / 262144;
  }

  /** utf16_literal_to_utf8: 0 for an invalid literal, otherwise the input bytes used. */
  method Utf16LiteralToUtf8(c: bytes, i: nat, end: nat, output: array<byte>, o: nat)
    returns (length: nat, next: nat)
    requires i <= end <= |c| && o <= output.Length
    requires Utf16Literal(c, i, end).Literal? ==> o + |Utf8(Utf16Literal(c, i, end).scalar)| <= output.Length
    modifies output
    ensures match Utf16Literal(c, i, end) {
              case BadLiteral => length == 0 && next == o && output[..] == old(output[..])
              case Literal(n, x) =>
                length == n && next == o + |Utf8(x)| <= output.Length && output[..next] == old(output[..o]) + Utf8(x)
            }
  {
    hide Hex4, Utf8;
    length, next := 0, o;
    if end - i < 6 { return; }
    var first := ParseHex4(c, i + 2);
    if 0xDC00 <= first <= 0xDFFF { return; }
    var codepoint := first;
    var sequence := 6;
    if 0xD800 <= first <= 0xDBFF {
      if end - (i + 6) < 6 { return; }
      if c[i + 6] != BACKSLASH || c[i + 7] != 117 { return; }
      var second := ParseHex4(c, i + 8);
      if second < 0xDC00 || second > 0xDFFF { return; }
      codepoint := 0x10000 + (first % 1024 * 1024 + second % 1024);
      sequence := 12;
    }
    next := EncodeUtf8(codepoint, output, o);
    length := sequence;
  }

  method EncodeUtf8(x: Scalar, output: array<byte>, o: nat) returns (next: nat)
    requires o + |Utf8(x)| <= output.Length
    modifies output
    ensures next == o + |Utf8(x)| && output[..next] == old(output[..o]) + Utf8(x)
  {
    ghost var encoded := Utf8(x);
    var n, mark := 4, 0xF0;
    if x < 0x80 { n, mark := 1, 0; }
    else if x < 0x800 { n, mark := 2, 0xC0; }
    else if x < 0x10000 { n, mark := 3, 0xE0; }
    Utf8Groups(x);
    hide Utf8;
    var codepoint: nat := x;
    var position := n - 1;
    while position > 0
      invariant 0 <= position < n
      invariant codepoint == Groups(x, n - 1 - position)
      invariant forall m :: o + position < m < o + n ==> output[m] == encoded[m - o]
      invariant forall m :: 0 <= m < o ==> output[m] == old(output[m])
    {
      output[o + position] := 0x80 + codepoint % 64;
      codepoint := codepoint / 64;
      position := position - 1;
    }
    output[o] := mark + codepoint;
    next := o + n;
    Appended(output[..], old(output[..o]), encoded);
  }

  /** Bytes that follow a prefix append to it. */
  lemma Appended(c: bytes, prefix: bytes, t: bytes)
    requires |prefix| + |t| <= |c| && (forall k :: 0 <= k < |prefix| ==> c[k] == prefix[k])
    requires forall m :: |prefix| <= m < |prefix| + |t| ==> c[m] == t[m - |prefix|]
    ensures c[..|prefix| + |t|] == prefix + t
  {
  }

  /** The sizing pass: the closing quote and the number of escapes, or failure. */
  method SizeLiteral(c: bytes, a: nat) returns (ok: bool, end: nat, skipped: nat)
    requires a <= |c|
    ensures ok <==> LiteralEnd(c, a).Some?
    ensures ok ==> LiteralEnd(c, a) == Some(end) && a <= end < |c| && !Escaped(c, a, end) && skipped == Skips(c, a, end)
  {
    end, skipped := a, 0;
    while end < |c| && c[end] != QUOTE
      invariant a <= end <= |c|
      invariant LiteralEnd(c, a) == LiteralEnd(c, end)
      invariant !Escaped(c, a, end) && skipped == Skips(c, a, end)
    {
      if c[end] == BACKSLASH {
        if end + 1 >= |c| { return false, end, skipped; }
        skipped := skipped + 1;
        end := end + 1;
      }
      end := end + 1;
    }
    ok := end < |c|;
  }

  /** Each turn of the decoding pass writes no more than it has been allotted so far. */
  lemma Room(c: bytes, a: nat, i: nat, end: nat, o: nat)
    requires a <= i < end < |c| && o <= i - a - Skips(c, a, i)
    ensures c[i] != BACKSLASH ==> o + 1 <= i + 1 - a - Skips(c, a, i + 1)
    ensures c[i] == BACKSLASH ==> o + 1 <= i + 2 - a - Skips(c, a, i + 2)
    ensures Utf16Literal(c, i, end).Literal? ==>
              var n, w := Utf16Literal(c, i, end).length, |Utf8(Utf16Literal(c, i, end).scalar)|;
              o + w <= i + n - a - Skips(c, a, i + n)
  {
    SkipsBetween(c, a, i, i + 1);
    if i + 1 < |c| { SkipsBetween(c, a, i, i + 2); }
    var l := Utf16Literal(c, i, end);
    if l.Literal? {
      SkipsBetween(c, a, i, i + l.length);
    }
  }

  /** Past the end only by the closing quote, which the sizing pass did not count. */
  lemma RoomInside(c: bytes, a: nat, i: nat, end: nat)
    requires a <= i <= end + 1 && a <= end < |c| && !Escaped(c, a, end) && c[end] == QUOTE
    ensures i - a - Skips(c, a, i) <= end - a + 1 - Skips(c, a, end)
  {
    if i <= end {
      SkipsBetween(c, a, i, end);
      SkipsGap(c, a, i, end);
    } else {
      assert Skips(c, a, end + 1) == Skips(c, a, end);
    }
  }

  lemma {:induction false} SkipsGap(c: bytes, a: nat, i: nat, j: nat)
    requires a <= i <= j <= |c|
    ensures Skips(c, a, j) - Skips(c, a, i) <= j - i
    decreases j
  {
    if i < j { SkipsGap(c, a, i, j - 1); }
  }

  /** The decoding pass never leaves the allocation, even when malformed \u digits make it pair
      backslashes differently from the sizing pass. */
  method DecodeLiteral(c: bytes, a: nat, end: nat, output: array<byte>) returns (ok: bool, at: nat, written: nat)
    requires a <= end < |c| && c[end] == QUOTE && !Escaped(c, a, end)
    requires output.Length == end + 1 - a - Skips(c, a, end) + 1
    modifies output
    ensures match Decode(c, a, end) {
              case Undecodable(where) => !ok && at == where
              case Decoded(text) => ok && written < output.Length && output[..written] == text && output[written] == NUL
            }
  {
    hide Decode, Unescape, Utf16Literal, Utf8, Skips, Escaped;
    var i: nat, o: nat := a, 0;
    Entry(c, a, end);
    while i < end
      invariant a <= i <= end + 1
      invariant o <= i - a - Skips(c, a, i) && o < output.Length
      invariant Decode(c, a, end) == Decode(c, i, end).Prepend(output[..o])
      decreases end + 1 - i
    {
      ghost var done := output[..o];
      Room(c, a, i, end, o);
      DecodeTurn(c, i, end, done);
      if c[i] != BACKSLASH {
        RoomInside(c, a, i + 1, end);
        output[o] := c[i];
        assert output[..o + 1] == done + [c[i]];
        i, o := i + 1, o + 1;
      } else if c[i + 1] == 117 {
        if Utf16Literal(c, i, end).Literal? {
          RoomInside(c, a, i + Utf16Literal(c, i, end).length, end);
        }
        var n, next := Utf16LiteralToUtf8(c, i, end, output, o);
        if n == 0 { return false, i, o; }
        i, o := i + n, next;
      } else {
        var e := Unescape(c[i + 1]);
        if e.None? { return false, i, o; }
        RoomInside(c, a, i + 2, end);
        output[o] := e.value;
        assert output[..o + 1] == done + [e.value];
        i, o := i + 2, o + 1;
      }
    }
    Finished(c, i, end);
    output[o] := NUL;
    assert output[..o] + [] == output[..o];
    ok, at, written := true, i, o;
  }

  lemma Entry(c: bytes, a: nat, end: nat)
    requires a <= end < |c| && c[end] == QUOTE && !Escaped(c, a, end)
    ensures Skips(c, a, a) == 0 && Skips(c, a, end) <= end - a
    ensures Decode(c, a, end).Prepend([]) == Decode(c, a, end)
  {
    SkipsGap(c, a, a, end);
  }

  lemma Finished(c: bytes, i: nat, end: nat)
    requires end <= i && end < |c|
    ensures Decode(c, i, end) == Decoded([])
  {
  }

  /** One turn of the decoding loop, with what has been written before it. */
  lemma DecodeTurn(c: bytes, i: nat, end: nat, done: bytes)
    requires i < end < |c|
    ensures
      if c[i] != BACKSLASH then
        Decode(c, i, end).Prepend(done) == Decode(c, i + 1, end).Prepend(done + [c[i]])
      else if c[i + 1] == 117 then
        match Utf16Literal(c, i, end) {
          case BadLiteral => Decode(c, i, end).Prepend(done) == Undecodable(i)
          case Literal(n, x) => Decode(c, i, end).Prepend(done) == Decode(c, i + n, end).Prepend(done + Utf8(x))
        }
      else
        match Unescape(c[i + 1]) {
          case None => Decode(c, i, end).Prepend(done) == Undecodable(i)
          case Some(b) => Decode(c, i, end).Prepend(done) == Decode(c, i + 2, end).Prepend(done + [b])
        }
  {
    hide Utf8, Unescape, Utf16Literal;
    if c[i] != BACKSLASH {
      PrependTwice(done, [c[i]], Decode(c, i + 1, end));
    } else if c[i + 1] == 117 {
      if Utf16Literal(c, i, end).Literal? {
        PrependTwice(done, Utf8(Utf16Literal(c, i, end).scalar), Decode(c, i + Utf16Literal(c, i, end).length, end));
      }
    } else if Unescape(c[i + 1]).Some? {
      PrependTwice(done, [Unescape(c[i + 1]).value], Decode(c, i + 2, end));
    }
  }

  lemma PrependTwice(s: bytes, t: bytes, d: Decoded)
    ensures d.Prepend(t).Prepend(s) == d.Prepend(s + t)
  {
    if d.Decoded? { Assoc(s, t, d.text); }
  }
}
