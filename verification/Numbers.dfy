/** JSON numbers: the decimal text of an integer, and the prefix of a text that strtod converts.
    A number's value is the exact decimal value of its text; rounding to double is not modelled. */
module Numbers {
  import opened Bytes

  const PLUS: byte := 43
  const MINUS: byte := 45
  const POINT: byte := 46

  predicate IsDigit(b: byte) { 48 <= b <= 57 }

  function DigitValue(b: byte): nat
    requires IsDigit(b)
  {
    b - 48
  }

  /** The bytes parse_number collects. */
  predicate NumberByte(b: byte) {
    IsDigit(b) || b == PLUS || b == MINUS || b == POINT || b == 69 || b == 101
  }

  lemma NumberCharacters(b: byte)
    ensures [PLUS, MINUS, POINT] == Ascii("+-.")
    ensures IsDigit(b) <==> b in Ascii("0123456789")
    ensures NumberByte(b) <==> b in Ascii("0123456789+-eE.")
  {
    var t := Ascii("0123456789+-eE.");
    assert t[..10] == Ascii("0123456789");
    assert t[10] == PLUS && t[11] == MINUS && t[12] == 101 && t[13] == 69 && t[14] == POINT;
    if IsDigit(b) { assert t[b - 48] == b && Ascii("0123456789")[b - 48] == b; }
  }

  /** How many bytes parse_number collects at `o`, at most `room`. */
  function Span(c: bytes, o: nat, room: nat): (n: nat)
    ensures n <= room && (o <= |c| ==> o + n <= |c|)
    ensures forall k :: o <= k < o + n ==> k < |c| && NumberByte(c[k])
    ensures n < room && o + n < |c| ==> !NumberByte(c[o + n])
    decreases room
  {
    if room > 0 && o < |c| && NumberByte(c[o]) then 1 + Span(c, o + 1, room - 1) else 0
  }

  // ----- strtod

  function DigitsEnd(t: bytes, i: nat): (e: nat)
    requires i <= |t|
    ensures i <= e <= |t|
    ensures forall k :: i <= k < e ==> IsDigit(t[k])
    ensures e < |t| ==> !IsDigit(t[e])
    decreases |t| - i
  {
    if i < |t| && IsDigit(t[i]) then DigitsEnd(t, i + 1) else i
  }

  /** The value of the digits t[i..j] written behind the digits of `before`. */
  function DigitsValue(t: bytes, i: nat, j: nat, before: nat): nat
    requires i <= j <= |t| && forall k :: i <= k < j ==> IsDigit(t[k])
    decreases j - i
  {
    if i == j then before else DigitsValue(t, i + 1, j, before * 10 + DigitValue(t[i]))
  }

  function Pow10(k: int): real
    decreases if k < 0 then -k else k
  {
    if k == 0 then 1.0 else if k > 0 then 10.0 * Pow10(k - 1) else Pow10(k + 1) / 10.0
  }

  function SignEnd(t: bytes, i: nat): (e: nat)
    requires i <= |t|
    ensures i <= e <= i + 1 && e <= |t|
  {
    if i < |t| && (t[i] == PLUS || t[i] == MINUS) then i + 1 else i
  }

  function Signed(t: bytes, i: nat, x: nat): int
    requires i <= |t|
  {
    if i < |t| && t[i] == MINUS then -(x as int) else x
  }

  datatype Conversion = Conversion(length: nat, value: real)

  predicate AllDigits(t: bytes, i: nat, j: nat) {
    i <= j <= |t| && forall k :: i <= k < j ==> IsDigit(t[k])
  }

  predicate IsE(b: byte) { b == 69 || b == 101 }

  /** Where the digits start, where whole digits and fraction digits end, and from where to where the
      digits of an exponent go, if there is one. */
  datatype Fields = Fields(start: nat, whole: nat, frac: nat, exponent: nat, end: nat)

  function Scan(t: bytes): (r: Fields)
    ensures AllDigits(t, r.start, r.whole) && r.whole <= r.frac <= |t| && r.frac <= r.exponent <= r.end <= |t|
    ensures r.frac > r.whole ==> t[r.whole] == POINT && AllDigits(t, r.whole + 1, r.frac)
    ensures AllDigits(t, r.exponent, r.end) && (r.end > r.exponent ==> IsE(t[r.frac]))
  {
    var start := SignEnd(t, 0);
    var whole := DigitsEnd(t, start);
    var frac := if whole < |t| && t[whole] == POINT then DigitsEnd(t, whole + 1) else whole;
    var exponent := if frac < |t| && IsE(t[frac]) then SignEnd(t, frac + 1) else frac;
    Fields(start, whole, frac, exponent, if frac < |t| && IsE(t[frac]) then DigitsEnd(t, exponent) else frac)
  }

  predicate NoDigits(r: Fields) { r.whole == r.start && r.frac <= r.whole + 1 }

  predicate HasExponent(r: Fields) { r.end > r.exponent }

  /** The digits of the mantissa as one number, without the point. */
  function Mantissa(t: bytes, r: Fields): int
    requires AllDigits(t, r.start, r.whole) && (r.frac > r.whole ==> AllDigits(t, r.whole + 1, r.frac))
  {
    var w := DigitsValue(t, r.start, r.whole, 0);
    Signed(t, 0, if r.frac > r.whole then DigitsValue(t, r.whole + 1, r.frac, w) else w)
  }

  function Exponent(t: bytes, r: Fields): int
    requires AllDigits(t, r.exponent, r.end) && r.frac < |t|
  {
    Signed(t, r.frac + 1, DigitsValue(t, r.exponent, r.end, 0))
  }

  /** The longest prefix of `t` that is a decimal floating-point text, and its value; length 0 if none. */
  function Strtod(t: bytes): (r: Conversion)
    ensures r.length <= |t|
    ensures r.length > 0 && (t[0] != PLUS && t[0] != MINUS) ==> IsDigit(t[0]) || t[0] == POINT
  {
    var r := Scan(t);
    var fracDigits := if r.frac > r.whole then r.frac - (r.whole + 1) else 0;
    if NoDigits(r) then Conversion(0, 0.0)
    else if HasExponent(r) then Conversion(r.end, Mantissa(t, r) as real * Pow10(Exponent(t, r) - fracDigits))
    else Conversion(r.frac, Mantissa(t, r) as real * Pow10(-fracDigits))
  }

  // ----- Printing integers

  function Digits(n: nat): (t: bytes)
    ensures |t| > 0 && forall k :: 0 <= k < |t| ==> IsDigit(t[k])
  {
    if n < 10 then [48 + n] else Digits(n / 10) + [48 + n % 10]
  }

  /** %1.15g of an integer of at most 15 digits: its plain decimal digits. */
  function IntText(n: int): bytes {
    if n < 0 then [MINUS] + Digits(-n) else Digits(n)
  }

  const INT_LIMIT: int := 1_000_000_000_000_000

  lemma {:induction false} DigitsLength(n: nat, k: nat, bound: nat)
    requires n < bound && bound == Ten(k) && k > 0
    ensures |Digits(n)| <= k
    decreases k
  {
    if n >= 10 {
      assert k > 1;
      DigitsLength(n / 10, k - 1, Ten(k - 1));
    }
  }

  function Ten(k: nat): nat { if k == 0 then 1 else 10 * Ten(k - 1) }

  lemma IntTextLength(n: int)
    requires -INT_LIMIT < n < INT_LIMIT
    ensures 1 <= |IntText(n)| <= 16
  {
    assert Ten(3) == 1000;
    assert Ten(6) == 1000 * Ten(3) by { assert Ten(4) == 10000; assert Ten(5) == 100000; }
    assert Ten(9) == 1000 * Ten(6) by { assert Ten(7) == 10 * Ten(6); assert Ten(8) == 10 * Ten(7); }
    assert Ten(12) == 1000 * Ten(9) by { assert Ten(10) == 10 * Ten(9); assert Ten(11) == 10 * Ten(10); }
    assert Ten(15) == 1000 * Ten(12) by { assert Ten(13) == 10 * Ten(12); assert Ten(14) == 10 * Ten(13); }
    DigitsLength(if n < 0 then -n else n, 15, Ten(15));
  }

  lemma {:induction false} DigitsValueAppend(t: bytes, u: bytes, i: nat, before: nat)
    requires i <= |t| && (forall k :: i <= k < |t| ==> IsDigit(t[k]))
    requires (forall k :: 0 <= k < |u| ==> IsDigit(u[k])) && |u| == 1
    ensures forall k :: i <= k < |t + u| ==> IsDigit((t + u)[k])
    ensures DigitsValue(t + u, i, |t + u|, before) == DigitsValue(t, i, |t|, before) * 10 + DigitValue(u[0])
    decreases |t| - i
  {
    if i < |t| {
      assert (t + u)[i] == t[i];
      DigitsValueAppend(t, u, i + 1, before * 10 + DigitValue(t[i]));
    } else {
      assert (t + u)[i] == u[0];
    }
  }

  lemma {:induction false} DigitsRead(n: nat)
    ensures DigitsValue(Digits(n), 0, |Digits(n)|, 0) == n
  {
    if n >= 10 {
      DigitsRead(n / 10);
      DigitsValueAppend(Digits(n / 10), [48 + n % 10], 0, 0);
    }
  }

  lemma {:induction false} DigitsEndAll(t: bytes, i: nat)
    requires i <= |t| && forall k :: i <= k < |t| ==> IsDigit(t[k])
    ensures DigitsEnd(t, i) == |t|
    decreases |t| - i
  {
    if i < |t| { DigitsEndAll(t, i + 1); }
  }

  lemma {:induction false} DigitsValueShift(p: bytes, t: bytes, i: nat, before: nat)
    requires i <= |t| && |p| == 1 && forall k :: 0 <= k < |t| ==> IsDigit(t[k])
    ensures forall k :: i + 1 <= k < |p + t| ==> IsDigit((p + t)[k])
    ensures DigitsValue(p + t, i + 1, |p + t|, before) == DigitsValue(t, i, |t|, before)
    decreases |t| - i
  {
    if i < |t| {
      assert (p + t)[i + 1] == t[i];
      DigitsValueShift(p, t, i + 1, before * 10 + DigitValue(t[i]));
    }
  }

  /** strtod takes the whole printed form of an integer and gives the integer back. */
  lemma IntTextRead(n: int)
    ensures Strtod(IntText(n)) == Conversion(|IntText(n)|, n as real)
    ensures IntText(n)[0] == MINUS || IsDigit(IntText(n)[0])
    ensures forall k :: 0 <= k < |IntText(n)| ==> NumberByte(IntText(n)[k])
  {
    if n < 0 {
      var d := Digits(-n);
      DigitsRead(-n);
      DigitsValueShift([MINUS], d, 0, 0);
      DigitsEndAll([MINUS] + d, 1);
    } else {
      DigitsRead(n);
      DigitsEndAll(Digits(n), 0);
    }
  }

  lemma {:induction false} SpanIs(c: bytes, o: nat, n: nat, room: nat)
    requires n <= room && o + n <= |c| && (n == room || o + n == |c| || !NumberByte(c[o + n]))
    requires forall k :: o <= k < o + n ==> NumberByte(c[k])
    ensures Span(c, o, room) == n
    decreases n
  {
    if n > 0 { SpanIs(c, o + 1, n - 1, room - 1); }
  }
}
