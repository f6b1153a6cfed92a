/** The texts strtod converts, as a relation, and among them those that are numbers of RFC 8259. */
module NumberTexts {
  import opened Bytes
  import opened Numbers

  predicate IsSign(b: byte) { b == PLUS || b == MINUS }

  /** A sign up to `s`, digits up to `w`, a point with digits up to `f`, and an exponent whose digits
      start at `x`; sign, point and exponent may be missing, but there is a digit before the exponent. */
  predicate Shape(t: bytes, s: nat, w: nat, f: nat, x: nat) {
    && s <= 1 && s <= w <= f <= |t| && (s == 1 ==> IsSign(t[0])) && AllDigits(t, s, w)
    && (f > w ==> t[w] == POINT && AllDigits(t, w + 1, f))
    && (w > s || f > w + 1)
    && if f == |t| then x == f else IsE(t[f]) && ExponentShape(t, f + 1, x)
  }

  predicate ExponentShape(t: bytes, i: nat, x: nat) {
    i <= x <= i + 1 && x < |t| && (x == i + 1 ==> IsSign(t[i])) && AllDigits(t, x, |t|)
  }

  ghost predicate NumberText(t: bytes) {
    exists s: nat, w: nat, f: nat, x: nat :: Shape(t, s, w, f, x)
  }

  // ----- strtod takes the longest such prefix

  lemma StrtodLength(t: bytes)
    ensures var r := Scan(t);
            Strtod(t).length == if NoDigits(r) then 0 else if HasExponent(r) then r.end else r.frac
  {
  }

  lemma TakenIsNumber(t: bytes)
    requires Strtod(t).length > 0
    ensures NumberText(t[..Strtod(t).length])
  {
    hide Strtod;
    StrtodLength(t);
    var r := Scan(t);
    var n := Strtod(t).length;
    assert Shape(t[..n], r.start, r.whole, r.frac, if HasExponent(r) then r.exponent else n);
  }

  lemma SignScanned(t: bytes, m: nat, s: nat, w: nat, f: nat, x: nat)
    requires m <= |t| && Shape(t[..m], s, w, f, x)
    ensures s == SignEnd(t, 0) && AllDigits(t, s, w) && (f > w ==> t[w] == POINT && AllDigits(t, w + 1, f))
    ensures s <= w <= f <= m && (w > s || f > w + 1)
    ensures f < m ==> IsE(t[f]) && ExponentShape(t[..m], f + 1, x)
  {
    hide ExponentShape;
    var u := t[..m];
    assert forall k :: 0 <= k < m ==> u[k] == t[k];
    assert s == 0 ==> !IsSign(t[0]);
  }

  /** The fields of a number text are those strtod finds, or end with the text. */
  lemma ShapeIsScanned(t: bytes, m: nat, s: nat, w: nat, f: nat, x: nat)
    requires m <= |t| && Shape(t[..m], s, w, f, x)
    ensures var r := Scan(t);
            s == r.start && w <= r.whole && (w < r.whole ==> m == w) && f <= r.frac && (f < r.frac ==> m == f)
    ensures !NoDigits(Scan(t))
  {
    hide Shape, ExponentShape;
    SignScanned(t, m, s, w, f, x);
    ScanMeets(t, s, w);
    if f > w { ScanMeets(t, w + 1, f); }
  }

  /** DigitsEnd goes at least as far as the digits do. */
  lemma {:induction false} ScanMeets(t: bytes, i: nat, j: nat)
    requires AllDigits(t, i, j)
    ensures j <= DigitsEnd(t, i)
    decreases j - i
  {
    if i < j { ScanMeets(t, i + 1, j); }
  }

  lemma NothingLonger(t: bytes, m: nat)
    requires m <= |t| && NumberText(t[..m])
    ensures 0 < m <= Strtod(t).length
  {
    hide Strtod, Shape;
    StrtodLength(t);
    var s: nat, w: nat, f: nat, x: nat :| Shape(t[..m], s, w, f, x);
    ShapeIsScanned(t, m, s, w, f, x);
    SignScanned(t, m, s, w, f, x);
    if f == Scan(t).frac && f < m { ExponentScanned(t, m, f, x); }
  }

  lemma ExponentScanned(t: bytes, m: nat, f: nat, x: nat)
    requires f == Scan(t).frac < m <= |t| && IsE(t[f]) && ExponentShape(t[..m], f + 1, x)
    ensures HasExponent(Scan(t)) && m <= Scan(t).end
  {
    var u := t[..m];
    assert forall k :: 0 <= k < m ==> u[k] == t[k];
    assert x == SignEnd(t, f + 1);
    ScanMeets(t, x, m);
  }

  /** strtod takes the longest prefix that is a number text, and nothing when there is none. */
  lemma StrtodIsLongest(t: bytes, n: nat)
    requires n <= |t|
    ensures Strtod(t).length == n <==>
            (n > 0 ==> NumberText(t[..n])) && forall m: nat :: n < m <= |t| ==> !NumberText(t[..m])
  {
    hide Strtod, NumberText;
    var k := Strtod(t).length;
    if k > 0 { TakenIsNumber(t); }
    forall m: nat | m <= |t| && NumberText(t[..m]) ensures 0 < m <= k { NothingLonger(t, m); }
  }

  // ----- What strtod takes is converted by itself

  lemma {:induction false} DigitsPrefix(t: bytes, n: nat, i: nat)
    requires i <= n <= |t|
    ensures DigitsEnd(t[..n], i) == if DigitsEnd(t, i) < n then DigitsEnd(t, i) else n
    decreases n - i
  {
    if i < n && IsDigit(t[i]) { DigitsPrefix(t, n, i + 1); }
  }

  lemma {:induction false} ValuePrefix(t: bytes, n: nat, i: nat, j: nat, before: nat)
    requires i <= j <= n <= |t| && AllDigits(t, i, j)
    ensures AllDigits(t[..n], i, j) && DigitsValue(t[..n], i, j, before) == DigitsValue(t, i, j, before)
    decreases j - i
  {
    if i < j { ValuePrefix(t, n, i + 1, j, before * 10 + DigitValue(t[i])); }
  }

  lemma ScanPrefixMantissa(t: bytes, n: nat)
    requires Scan(t).frac <= n <= |t| && 0 < n
    ensures var r, p := Scan(t), Scan(t[..n]); p.start == r.start && p.whole == r.whole && p.frac == r.frac
  {
    hide AllDigits;
    var r := Scan(t);
    DigitsPrefix(t, n, r.start);
    if r.frac > r.whole { DigitsPrefix(t, n, r.whole + 1); }
  }

  lemma ScanPrefixExponent(t: bytes, n: nat)
    requires n <= |t| && Scan(t[..n]).frac == Scan(t).frac <= n
    requires n == if HasExponent(Scan(t)) then Scan(t).end else Scan(t).frac
    ensures var r, p := Scan(t), Scan(t[..n]);
            if HasExponent(r) then p.exponent == r.exponent && p.end == r.end == n else p.end == p.exponent
  {
    hide AllDigits;
    if HasExponent(Scan(t)) { DigitsPrefix(t, n, Scan(t).exponent); }
  }

  lemma ScanPrefix(t: bytes)
    requires Strtod(t).length > 0
    ensures var n, r, p := Strtod(t).length, Scan(t), Scan(t[..Strtod(t).length]);
            && p.start == r.start && p.whole == r.whole && p.frac == r.frac
            && if HasExponent(r) then p.exponent == r.exponent && p.end == r.end == n
               else n == r.frac && p.end == p.exponent
  {
    hide Strtod, Scan;
    StrtodLength(t);
    ScanPrefixMantissa(t, Strtod(t).length);
    ScanPrefixExponent(t, Strtod(t).length);
  }

  lemma StrtodPrefix(t: bytes)
    requires Strtod(t).length > 0
    ensures Strtod(t[..Strtod(t).length]) == Strtod(t)
  {
    hide Pow10, Scan, Mantissa, Exponent;
    ScanPrefix(t);
    StrtodLength(t);
    MantissaPrefix(t, Strtod(t).length, Scan(t), Scan(t[..Strtod(t).length]));
    if HasExponent(Scan(t)) { ExponentPrefix(t, Strtod(t).length, Scan(t), Scan(t[..Strtod(t).length])); }
  }

  lemma MantissaPrefix(t: bytes, n: nat, r: Fields, p: Fields)
    requires n <= |t| && 0 < r.frac <= n && AllDigits(t, r.start, r.whole) && r.whole <= r.frac
    requires r.frac > r.whole ==> AllDigits(t, r.whole + 1, r.frac)
    requires p.start == r.start && p.whole == r.whole && p.frac == r.frac
    ensures AllDigits(t[..n], r.start, r.whole) && (r.frac > r.whole ==> AllDigits(t[..n], r.whole + 1, r.frac))
    ensures Mantissa(t[..n], p) == Mantissa(t, r)
  {
    ValuePrefix(t, n, r.start, r.whole, 0);
    if r.frac > r.whole { ValuePrefix(t, n, r.whole + 1, r.frac, DigitsValue(t, r.start, r.whole, 0)); }
  }

  lemma ExponentPrefix(t: bytes, n: nat, r: Fields, p: Fields)
    requires n <= |t| && r.frac < r.exponent < r.end <= n && AllDigits(t, r.exponent, r.end)
    requires p.exponent == r.exponent && p.end == r.end && p.frac == r.frac
    ensures AllDigits(t[..n], r.exponent, r.end) && Exponent(t[..n], p) == Exponent(t, r)
  {
    ValuePrefix(t, n, r.exponent, r.end, 0);
  }

  // ----- Numbers of RFC 8259

  const ZERO: byte := 48

  /** Section 6: an optional minus, digits without a leading zero, and digits behind any point. */
  predicate RfcShape(t: bytes, s: nat, w: nat, f: nat, x: nat) {
    && Shape(t, s, w, f, x)
    && (s == 1 ==> t[0] == MINUS) && w > s && (w > s + 1 ==> t[s] != ZERO) && (f > w ==> f > w + 1)
  }

  ghost predicate RfcNumber(t: bytes) {
    exists s: nat, w: nat, f: nat, x: nat :: RfcShape(t, s, w, f, x)
  }

  /** A zero with a digit behind it at the front of the digits. */
  predicate LeadingZero(t: bytes) {
    var s := SignEnd(t, 0);
    s + 1 < |t| && t[s] == ZERO && IsDigit(t[s + 1])
  }

  /** A point that lacks a digit on one of its sides. */
  predicate BarePoint(t: bytes) {
    exists k :: 0 <= k < |t| && t[k] == POINT && !(0 < k < |t| - 1 && IsDigit(t[k - 1]) && IsDigit(t[k + 1]))
  }

  lemma RfcShapeIff(t: bytes, s: nat, w: nat, f: nat, x: nat)
    requires Shape(t, s, w, f, x) && t[0] != PLUS
    ensures RfcShape(t, s, w, f, x) <==> !LeadingZero(t) && !BarePoint(t)
  {
    ShapeSign(t, s, w, f, x);
    ShapePoint(t, s, w, f, x);
    hide ExponentShape;
    assert LeadingZero(t) <==> w > s + 1 && t[s] == ZERO;
    assert BarePoint(t) <==> w == s || f == w + 1;
  }

  lemma ShapeSign(t: bytes, s: nat, w: nat, f: nat, x: nat)
    requires Shape(t, s, w, f, x)
    ensures |t| > 0 && s == SignEnd(t, 0)
    ensures LeadingZero(t) <==> w > s + 1 && t[s] == ZERO
  {
    hide ExponentShape;
    assert s == 0 ==> !IsSign(t[0]);
    if LeadingZero(t) { assert IsDigit(t[s]); }
  }

  /** The only point of a number text. */
  lemma ShapePoint(t: bytes, s: nat, w: nat, f: nat, x: nat)
    requires Shape(t, s, w, f, x)
    ensures BarePoint(t) <==> f > w && (w == s || f == w + 1)
  {
    forall k | 0 <= k < |t| && t[k] == POINT ensures k == w && f > w { OnlyPoint(t, s, w, f, x, k); }
    if f > w {
      assert w == s ==> !(w > 0 && IsDigit(t[w - 1]));
      assert f == w + 1 ==> !(w < |t| - 1 && IsDigit(t[w + 1]));
    }
  }

  lemma OnlyPoint(t: bytes, s: nat, w: nat, f: nat, x: nat, k: nat)
    requires Shape(t, s, w, f, x) && k < |t| && t[k] == POINT
    ensures k == w && f > w
  {
  }

  /** Among the texts strtod takes, the numbers of RFC 8259 are those without leading zero and bare point. */
  lemma RfcNumberIff(t: bytes)
    requires NumberText(t) && t[0] != PLUS
    ensures RfcNumber(t) <==> !LeadingZero(t) && !BarePoint(t)
  {
    hide Shape, LeadingZero, BarePoint;
    var s: nat, w: nat, f: nat, x: nat :| Shape(t, s, w, f, x);
    RfcShapeIff(t, s, w, f, x);
    if RfcNumber(t) {
      hide RfcShape;
      var s', w', f', x' :| RfcShape(t, s', w', f', x');
      RfcIsShape(t, s', w', f', x');
      RfcShapeIff(t, s', w', f', x');
    }
  }

  lemma RfcIsShape(t: bytes, s: nat, w: nat, f: nat, x: nat)
    requires RfcShape(t, s, w, f, x)
    ensures Shape(t, s, w, f, x) && NumberText(t)
  {
  }

  lemma NumberTextBytes(t: bytes)
    requires NumberText(t)
    ensures forall k :: 0 <= k < |t| ==> NumberByte(t[k])
  {
    var s: nat, w: nat, f: nat, x: nat :| Shape(t, s, w, f, x);
    forall k | 0 <= k < |t| ensures NumberByte(t[k]) {
      if k < f { assert k < s || s <= k < w || k == w || w + 1 <= k < f; } else { assert k == f || k < x || x <= k; }
    }
  }

  lemma RfcStarts(t: bytes)
    requires RfcNumber(t)
    ensures NumberText(t) && |t| > 0 && (t[0] == MINUS || IsDigit(t[0]))
  {
    hide ExponentShape;
    var s: nat, w: nat, f: nat, x: nat :| RfcShape(t, s, w, f, x);
    assert Shape(t, s, w, f, x);
  }
}
