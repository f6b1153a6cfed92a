/** What the texts strtod converts are worth: each digit by its place, and a power of ten. */
module NumberValues {
  import opened Bytes
  import opened Numbers
  import opened NumberTexts

  /** The digits t[i..j], the first of which counts 10^p, the next 10^(p-1), and so on. */
  function PlaceSum(t: bytes, i: nat, j: nat, p: int): real
    requires AllDigits(t, i, j)
    decreases j - i
  {
    if i == j then 0.0 else (t[i] as int - 48) as real * Pow10(p) + PlaceSum(t, i + 1, j, p - 1)
  }

  function Sign(t: bytes, i: nat): int
    requires i <= |t|
  {
    if i < |t| && t[i] == MINUS then -1 else 1
  }

  /** The whole digits count from the point to the left, the fraction digits to the right. */
  function Magnitude(t: bytes, s: nat, w: nat, f: nat): real
    requires AllDigits(t, s, w) && w <= f <= |t| && (f > w ==> AllDigits(t, w + 1, f))
  {
    PlaceSum(t, s, w, w - s - 1) + if f > w then PlaceSum(t, w + 1, f, -1) else 0.0
  }

  /** The exponent is the number e. */
  predicate ExponentIs(t: bytes, f: nat, x: nat, e: int)
    requires f <= |t|
  {
    if f == |t| then e == 0
    else AllDigits(t, x, |t|) && e as real == Sign(t, f + 1) as real * PlaceSum(t, x, |t|, |t| - x - 1)
  }

  ghost predicate FieldsWorth(t: bytes, s: nat, w: nat, f: nat, x: nat, e: int, v: real) {
    && Shape(t, s, w, f, x) && ExponentIs(t, f, x, e)
    && v == Sign(t, 0) as real * Magnitude(t, s, w, f) * Pow10(e)
  }

  /** The text is a number text worth v. */
  ghost predicate Worth(t: bytes, v: real) {
    exists s: nat, w: nat, f: nat, x: nat, e: int :: FieldsWorth(t, s, w, f, x, e, v)
  }

  lemma WorthIsText(t: bytes, v: real)
    requires Worth(t, v)
    ensures NumberText(t)
  {
    hide Shape, ExponentIs, Magnitude;
  }

  // ----- Powers of ten

  /** Pow10 is the powers of ten: it turns sums into products, and its value at 1 is 10. */
  lemma {:induction false} Powers(a: int, b: int)
    ensures Pow10(a + b) == Pow10(a) * Pow10(b) && Pow10(0) == 1.0 && Pow10(1) == 10.0
    decreases if b < 0 then -b else b
  {
    PowerStart();
    hide Pow10;
    if b > 0 {
      Powers(a, b - 1);
      NextPower(a + b - 1);
      NextPower(b - 1);
      Triple(Pow10(a), 10.0, Pow10(b - 1));
    } else if b < 0 {
      Powers(a, b + 1);
      NextPower(a + b);
      NextPower(b);
      Triple(Pow10(a), 10.0, Pow10(b));
    }
  }

  lemma PowerStart()
    ensures Pow10(0) == 1.0 && Pow10(1) == 10.0
  {
  }

  lemma NextPower(k: int)
    ensures Pow10(k + 1) == 10.0 * Pow10(k)
  {
  }

  lemma Triple(a: real, b: real, c: real)
    ensures a * b * c == a * (b * c) == (a * c) * b
  {
  }

  lemma Sums(a: real, b: real, c: real)
    ensures (a + b) * c == a * c + b * c
  {
  }

  // ----- Reading digit by digit adds them up by place

  lemma {:induction false} PlaceShift(t: bytes, i: nat, j: nat, p: int, q: int)
    requires AllDigits(t, i, j)
    ensures PlaceSum(t, i, j, p) * Pow10(q) == PlaceSum(t, i, j, p + q)
    decreases j - i
  {
    hide Pow10;
    if i < j {
      var d := (t[i] as int - 48) as real;
      PlaceShift(t, i + 1, j, p - 1, q);
      Powers(p, q);
      Sums(d * Pow10(p), PlaceSum(t, i + 1, j, p - 1), Pow10(q));
      Triple(d, Pow10(p), Pow10(q));
    }
  }

  lemma {:induction false} ReadByPlace(t: bytes, i: nat, j: nat, before: nat)
    requires AllDigits(t, i, j)
    ensures DigitsValue(t, i, j, before) as real == before as real * Pow10(j - i) + PlaceSum(t, i, j, j - i - 1)
    decreases j - i
  {
    hide Pow10;
    Powers(0, 0);
    if i < j {
      var n, d, p := before as real, DigitValue(t[i]), Pow10(j - i - 1);
      ReadByPlace(t, i + 1, j, before * 10 + d);
      Powers(1, j - i - 1);
      assert (before * 10 + d) as real == n * 10.0 + d as real;
      Sums(n * 10.0, d as real, p);
      Triple(n, 10.0, p);
    }
  }

  /** The fields of a number text are those strtod finds. */
  lemma ShapeFields(t: bytes, s: nat, w: nat, f: nat, x: nat)
    requires Shape(t, s, w, f, x)
    ensures var r := Scan(t); s == r.start && w == r.whole && f == r.frac && !NoDigits(r)
    ensures f == |t| ==> !HasExponent(Scan(t))
    ensures f < |t| ==> x == Scan(t).exponent && Scan(t).end == |t| && HasExponent(Scan(t))
  {
    assert t[..|t|] == t;
    ShapeIsScanned(t, |t|, s, w, f, x);
    if f < |t| {
      hide Shape, ExponentShape;
      SignScanned(t, |t|, s, w, f, x);
      ExponentScanned(t, |t|, f, x);
      ExponentStart(t, f, x);
    }
  }

  lemma ExponentStart(t: bytes, f: nat, x: nat)
    requires f < |t| && IsE(t[f]) && ExponentShape(t, f + 1, x)
    ensures x == SignEnd(t, f + 1) && Scan(t).frac == f ==> x == Scan(t).exponent
  {
  }

  lemma FractionWorth(t: bytes, i: nat, j: nat, whole: nat)
    requires AllDigits(t, i, j)
    ensures DigitsValue(t, i, j, whole) as real * Pow10(-(j - i)) == whole as real + PlaceSum(t, i, j, -1)
  {
    hide Pow10, DigitsValue, PlaceSum;
    var k := j - i;
    ReadByPlace(t, i, j, whole);
    PlaceShift(t, i, j, k - 1, -k);
    Powers(k, -k);
    Sums(whole as real * Pow10(k), PlaceSum(t, i, j, k - 1), Pow10(-k));
    Triple(whole as real, Pow10(k), Pow10(-k));
  }

  lemma WholeWorth(t: bytes, i: nat, j: nat)
    requires AllDigits(t, i, j)
    ensures DigitsValue(t, i, j, 0) as real == PlaceSum(t, i, j, j - i - 1)
  {
    hide Pow10, DigitsValue, PlaceSum;
    ReadByPlace(t, i, j, 0);
  }

  lemma MantissaWorth(t: bytes, s: nat, w: nat, f: nat, r: Fields)
    requires AllDigits(t, s, w) && w <= f <= |t| && (f > w ==> AllDigits(t, w + 1, f))
    requires r.start == s && r.whole == w && r.frac == f
    ensures Mantissa(t, r) as real * Pow10(-(if f > w then f - (w + 1) else 0)) ==
            Sign(t, 0) as real * Magnitude(t, s, w, f)
  {
    hide Pow10, DigitsValue, PlaceSum;
    Powers(0, 0);
    WholeWorth(t, s, w);
    var n: int := DigitsValue(t, s, w, 0);
    if f > w {
      FractionWorth(t, w + 1, f, n);
      n := DigitsValue(t, w + 1, f, n);
    }
    var scale := Pow10(-(if f > w then f - (w + 1) else 0));
    assert n as real * scale == Magnitude(t, s, w, f);
    assert Mantissa(t, r) == if Sign(t, 0) < 0 then -n else n;
    Negated(n as real, scale);
  }

  lemma Negated(a: real, b: real)
    ensures (-a) * b == (-1.0) * (a * b) && a * b == 1.0 * (a * b)
  {
  }

  lemma ExponentWorth(t: bytes, x: nat, f: nat, r: Fields)
    requires f < |t| && AllDigits(t, x, |t|) && r.exponent == x && r.end == |t| && r.frac == f
    ensures ExponentIs(t, f, x, Exponent(t, r))
  {
    hide Pow10, DigitsValue, PlaceSum;
    WholeWorth(t, x, |t|);
    var n := DigitsValue(t, x, |t|, 0);
    assert Exponent(t, r) == Sign(t, f + 1) * n;
    Negated(n as real, 1.0);
  }

  /** strtod gives a number text that it takes whole the value its digits have by their places. */
  lemma FieldsConverted(t: bytes, s: nat, w: nat, f: nat, x: nat)
    requires Shape(t, s, w, f, x)
    ensures exists e: int :: FieldsWorth(t, s, w, f, x, e, Strtod(t).value) && (f == |t| ==> e == 0)
  {
    hide Pow10, Scan, Mantissa, Exponent, Magnitude, ExponentIs;
    ShapeFields(t, s, w, f, x);
    var r := Scan(t);
    var k := if f > w then f - (w + 1) else 0;
    MantissaWorth(t, s, w, f, r);
    var e := 0;
    if f < |t| {
      ExponentWorth(t, x, f, r);
      e := Exponent(t, r);
      Powers(e, -k);
      Triple(Mantissa(t, r) as real, Pow10(e), Pow10(-k));
    } else {
      NoExponent(t, x);
      Powers(0, 0);
    }
    assert FieldsWorth(t, s, w, f, x, e, Strtod(t).value);
  }

  lemma NoExponent(t: bytes, x: nat)
    ensures ExponentIs(t, |t|, x, 0)
  {
  }

  /** strtod converts a text as a whole exactly if it is a number text, and to what that is worth. */
  lemma ConvertsIffWorth(t: bytes, v: real)
    ensures Strtod(t) == Conversion(|t|, v) && |t| > 0 <==> Worth(t, v)
  {
    hide Strtod, Shape, ExponentIs, Magnitude, Pow10;
    if Strtod(t).length == |t| > 0 {
      TakenIsNumber(t);
      assert t[..|t|] == t;
      var s: nat, w: nat, f: nat, x: nat :| Shape(t, s, w, f, x);
      FieldsConverted(t, s, w, f, x);
    }
    if Worth(t, v) {
      var s: nat, w: nat, f: nat, x: nat, e: int :| FieldsWorth(t, s, w, f, x, e, v);
      FieldsConverted(t, s, w, f, x);
      var e': int :| FieldsWorth(t, s, w, f, x, e', Strtod(t).value);
      OneWorth(t, s, w, f, x, e, e', v, Strtod(t).value);
      StrtodIsLongest(t, |t|);
      assert t[..|t|] == t && NumberText(t);
    }
  }

  lemma OneWorth(t: bytes, s: nat, w: nat, f: nat, x: nat, e: int, e': int, v: real, v': real)
    requires FieldsWorth(t, s, w, f, x, e, v) && FieldsWorth(t, s, w, f, x, e', v')
    ensures v == v' && |t| > 0
  {
    hide PlaceSum, Magnitude, ExponentShape;
    assert e as real == e' as real;
  }

  // ----- The text of an integer

  lemma {:induction false} NoLeadingZero(n: nat)
    ensures n > 0 ==> Digits(n)[0] != ZERO
    ensures n < 10 ==> |Digits(n)| == 1
  {
    if n >= 10 { NoLeadingZero(n / 10); }
  }

  /** An integer is printed as the number of RFC 8259 that is worth it: its digits and nothing else, without a
      leading zero, behind a minus sign if it is negative. */
  lemma IntTextIs(n: int)
    ensures var t := IntText(n);
            && RfcNumber(t) && Worth(t, n as real) && (t[0] == MINUS <==> n < 0)
            && forall k :: 0 <= k < |t| && !(k == 0 && n < 0) ==> IsDigit(t[k])
  {
    hide Digits, Worth, Strtod;
    var d := Digits(if n < 0 then -n else n);
    NoLeadingZero(if n < 0 then -n else n);
    IntTextRead(n);
    var t := IntText(n);
    ConvertsIffWorth(t, n as real);
    var s := if n < 0 then 1 else 0;
    assert forall k :: 0 <= k < |d| ==> t[k + s] == d[k];
    assert RfcShape(t, s, |t|, |t|, |t|);
  }
}
