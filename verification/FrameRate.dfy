/** The frame-rate decimator: of F frames a second it lets T through. */
module FrameRate {
  import opened Arithmetic

  const WORD: nat := 0x1_0000_0000

  type u32 = x: nat | x < WORD

  /** Unsigned 32-bit addition keeps the low word of the sum. */
  function Wrap(sum: nat): u32 { sum % WORD }

  /** The accumulator after a call, and whether the frame passes. The addition wraps around. */
  function Advance(full: u32, target: u32, key: u32): (u32, bool) {
    var k := Wrap(key + target);
    if k >= full then (k - full, true) else (k, false)
  }

  /** FPS_CTRL_S. */
  class FpsCtrl {
    var full: u32
    var target: u32
    var key: u32
    /** Calls since InitFps, and how many of them returned true. */
    ghost var calls: nat
    ghost var passed: nat

    ghost predicate Valid()
      reads this
    {
      Calls(full, target, calls) == (key, passed)
    }

    /** InitFps. */
    method InitFps(fullFps: u32, targetFps: u32)
      modifies this
      ensures Valid() && full == fullFps && target == targetFps && calls == 0 && key == 0
    {
      full, target, key := fullFps, targetFps, 0;
      calls, passed := 0, 0;
    }

    /** FpsControl. */
    method FpsControl() returns (pass: bool)
      requires Valid()
      modifies this`key, this`calls, this`passed
      ensures Valid() && calls == old(calls) + 1 && passed == old(passed) + if pass then 1 else 0
    {
      hide Wrap;
      pass := false;
      key := Wrap(key + target);
      if key >= full {
        key := key - full;
        pass := true;
      }
      calls, passed := calls + 1, passed + if pass then 1 else 0;
    }
  }

  /** Accumulator and number of passed frames after `n` calls. */
  function Calls(full: u32, target: u32, n: nat): (r: (u32, nat))
    ensures r.1 <= n
  {
    if n == 0 then (0, 0)
    else
      var before := Calls(full, target, n - 1);
      var (key, pass) := Advance(full, target, before.0);
      (key, before.1 + if pass then 1 else 0)
  }

  /** The promise: after `n` frames exactly floor(n T / F) have passed. */
  predicate Exact(full: u32, target: u32, n: nat)
    requires full > 0
  {
    Calls(full, target, n) == ((n * target) % full, (n * target) / full)
  }

  // ----- Greatest common divisors

  function Gcd(a: nat, b: nat): nat
    decreases b
  {
    if b == 0 then a else Gcd(b, a % b)
  }

  /** The greatest common divisor divides both numbers and is a combination of them. */
  lemma {:induction false} Bezout(a: nat, b: nat) returns (x: int, y: int, p: nat, q: nat)
    requires a > 0 || b > 0
    ensures Gcd(a, b) > 0 && Times(a, x) + Times(b, y) == Gcd(a, b)
    ensures a == Times(Gcd(a, b), p) && b == Times(Gcd(a, b), q)
    decreases b
  {
    hide Times, Quotient, Remainder;
    if b == 0 {
      x, y, p, q := 1, 0, 1, 0;
      Units(a);
      Units(b);
    } else {
      var d, m := Quotient(a, b), Remainder(a, b);
      GcdStep(a, b);
      var x', y', p', q' := Bezout(b, m);
      Division(a, b);
      x, y := y', x' - Times(d, y');
      Combine(b, d, m, x', y');
      Signs(d, p');
      p, q := Times(d, p') + q', p';
      Factor(Gcd(b, m), d, p', q');
    }
  }

  lemma GcdStep(a: nat, b: nat)
    requires b > 0
    ensures Gcd(a, b) == Gcd(b, Remainder(a, b))
  {
  }

  lemma Combine(b: int, d: int, m: int, x: int, y: int)
    ensures Times(Times(b, d) + m, y) + Times(b, x - Times(d, y)) == Times(b, x) + Times(m, y)
  {
  }

  lemma Factor(g: int, d: int, p: int, q: int)
    ensures Times(Times(g, p), d) + Times(g, q) == Times(g, Times(d, p) + q)
  {
  }

  /** Every value of the accumulator is a multiple of the divisor, so it stays that far below F. */
  lemma KeyBelow(full: nat, target: nat, n: nat)
    requires full > 0
    ensures Remainder(Times(n, target), full) <= full - Gcd(target, full)
  {
    hide Times, Quotient, Remainder, Gcd;
    var _, _, t, f := Bezout(target, full);
    var g := Gcd(target, full);
    Signs(g, f);
    var s := Times(n, t);
    var d, r := Quotient(s, f), Remainder(s, f);
    Division(s, f);
    Multiples(n, g, t);
    Spread(g, f, d, r);
    Distribute(g, f - 1, r);
    Distribute(g, f, 1 + r);
    Units(g);
    Below(g, r, f);
    DivisionIs(Times(n, target), full, d, Times(g, r));
  }

  lemma Multiples(n: int, g: int, t: int)
    ensures Times(n, Times(g, t)) == Times(g, Times(n, t))
  {
  }

  lemma Spread(g: int, f: int, d: int, r: int)
    ensures Times(g, Times(f, d) + r) == Times(Times(g, f), d) + Times(g, r)
  {
  }

  lemma Below(g: int, r: int, f: int)
    requires g > 0 && 0 <= r < f
    ensures 0 <= Times(g, r) <= Times(g, f) - g
  {
    hide Times;
    Signs(g, r);
    Signs(g, f - 1 - r);
    Distribute(g, f, 1);
    Distribute(g, f - 1, r);
    Units(g);
    if f - 1 - r == 0 { assert Times(g, f - 1) == Times(g, r); }
  }

  /** And it comes that close: some number of frames reaches it. */
  lemma KeyReaches(full: nat, target: nat) returns (n: nat)
    requires full > 0
    ensures Remainder(Times(n, target), full) == full - Gcd(target, full)
  {
    hide Times, Quotient, Remainder, Gcd;
    var x, y, t, f := Bezout(target, full);
    var g := Gcd(target, full);
    var k := Quotient(-x, full);
    n := Remainder(-x, full);
    Division(-x, full);
    Reach(full, target, x, y, k, n);
    Signs(g, f);
    Below(g, 0, f);
    DivisionIs(Times(n, target), full, y - Times(k, target) - 1, full - g);
  }

  lemma Reach(full: int, target: int, x: int, y: int, k: int, n: int)
    requires -x == Times(full, k) + n
    ensures Times(n, target) ==
            Times(full, y - Times(k, target) - 1) + full - (Times(target, x) + Times(full, y))
  {
    assert n == -x - full * k;
    calc {
      Times(n, target);
      (-x - full * k) * target;
      -(target * x) - full * (k * target);
      full * (y - k * target - 1) + full - (target * x + full * y);
    }
  }

  // ----- When the promise is kept

  /** Neither more frames wanted than there are, nor an accumulator that wraps around. */
  predicate Fits(full: u32, target: u32) {
    target <= full && full - Gcd(target, full) + target < WORD
  }

  lemma ExactNamed(full: u32, target: u32, n: nat)
    requires full > 0
    ensures Exact(full, target, n) <==>
            Calls(full, target, n) == (Remainder(Times(n, target), full), Quotient(Times(n, target), full))
  {
  }

  /** One call, at any rates: the sum of accumulator and target loses 2^32 if it has that much, and then the
      full rate, and the frame passes, if it has that much. */
  lemma NextCall(full: u32, target: u32, n: nat)
    ensures var (key, passed) := Calls(full, target, n);
            var sum := key + target;
            var low := if sum >= 4294967296 then sum - 4294967296 else sum;
            Calls(full, target, n + 1) == if low >= full then (low - full, passed + 1) else (low, passed)
  {
    hide Wrap;
    OneWrap(Calls(full, target, n).0 + target);
  }

  /** Where more frames are wanted than there are, every frame passes until the sum wraps around. */
  lemma {:induction false} AllPass(full: u32, target: u32, n: nat)
    requires full <= target && (n == 0 || Times(n - 1, target - full) + target < 4294967296)
    ensures Times(n, target - full) < WORD && Calls(full, target, n) == (Times(n, target - full), n)
    decreases n
  {
    hide Times, Wrap, Calls;
    Units(target - full);
    if n == 0 {
      NoCalls(full, target);
    } else {
      Commute(n - 1, target - full);
      Commute(n, target - full);
      Distribute(target - full, n - 1, 1);
      if n > 1 {
        Commute(n - 2, target - full);
        Distribute(target - full, n - 2, 1);
      }
      AllPass(full, target, n - 1);
      NextCall(full, target, n - 1);
    }
  }

  lemma NoCalls(full: u32, target: u32)
    ensures Calls(full, target, 0) == (0, 0)
  {
  }

  /** The frame with which it wraps passes only if enough of the sum is left. */
  lemma WrapDrops(full: u32, target: u32, n: nat)
    requires full <= target && (n == 0 || Times(n - 1, target - full) + target < 4294967296)
    requires Times(n, target - full) + target >= 4294967296
    ensures Calls(full, target, n + 1).1 == n + 1 <==> Times(n, target - full) + target >= 4294967296 + full
  {
    hide Times, Wrap, Calls;
    AllPass(full, target, n);
    NextCall(full, target, n);
  }

  lemma OneWrap(sum: nat)
    requires sum < 2 * WORD
    ensures Wrap(sum) == if sum >= WORD then sum - WORD else sum
  {
  }

  lemma NextExact(full: u32, target: u32, n: nat)
    requires full > 0 && target <= full && Exact(full, target, n)
    ensures Exact(full, target, n + 1) <==> Remainder(Times(n, target), full) + target < WORD
  {
    hide Times, Quotient, Remainder, Exact, Calls;
    ExactNamed(full, target, n);
    ExactNamed(full, target, n + 1);
    NextCall(full, target, n);
    var k, q := Remainder(Times(n, target), full), Quotient(Times(n, target), full);
    Division(Times(n, target), full);
    Commute(n, target);
    Commute(n + 1, target);
    Distribute(target, n, 1);
    Distribute(full, q, 1);
    Units(target);
    Units(full);
    if k + target >= full {
      DivisionIs(Times(n + 1, target), full, q + 1, k + target - full);
    } else {
      DivisionIs(Times(n + 1, target), full, q, k + target);
    }
  }

  lemma {:induction false} FitsExact(full: u32, target: u32, n: nat)
    requires full > 0 && Fits(full, target)
    ensures Exact(full, target, n)
    decreases n
  {
    hide Times, Quotient, Remainder, Exact, Gcd;
    if n == 0 {
      FirstExact(full, target);
    } else {
      FitsExact(full, target, n - 1);
      KeyBelow(full, target, n - 1);
      NextExact(full, target, n - 1);
    }
  }

  lemma FirstExact(full: u32, target: u32)
    requires full > 0
    ensures Exact(full, target, 0)
  {
  }

  /** A rate above the full one fails at the latest after F frames: more would have to pass than came. */
  lemma TooManyWanted(full: u32, target: u32)
    requires 0 < full < target
    ensures !Exact(full, target, full)
  {
    hide Times, Quotient, Remainder, Exact, Calls;
    ExactNamed(full, target, full);
    DivisionIs(Times(full, target), full, target, 0);
  }

  /** Exactly then every prefix of the frames is decimated as promised. */
  lemma ExactIff(full: u32, target: u32)
    requires full > 0
    ensures (forall n: nat :: Exact(full, target, n)) <==> Fits(full, target)
  {
    hide Times, Quotient, Remainder, Exact, Gcd;
    if Fits(full, target) {
      forall n: nat ensures Exact(full, target, n) { FitsExact(full, target, n); }
    } else if target > full {
      TooManyWanted(full, target);
    } else {
      var n := KeyReaches(full, target);
      if Exact(full, target, n) { NextExact(full, target, n); }
    }
  }

  /** Up to 2^31 frames a second nothing wraps around. */
  lemma SmallRatesFit(full: u32, target: u32)
    requires 0 < target <= full <= 0x8000_0000
    ensures Fits(full, target)
  {
    hide Times, Gcd;
    var _, _, _, _ := Bezout(target, full);
  }

  /** One frame a second more, and the second call of a run already wraps around: the frame that should
      pass does not. */
  lemma WrapsAround()
    ensures !Fits(0x8000_0001, 0x8000_0000) && !Exact(0x8000_0001, 0x8000_0000, 2)
    ensures Calls(0x8000_0001, 0x8000_0000, 2) == (0, 0)
  {
    assert Calls(0x8000_0001, 0x8000_0000, 1) == (0x8000_0000, 0);
  }

  /** Without a full rate to compare with, every frame passes. */
  lemma {:induction false} NoFullRate(target: u32, n: nat)
    ensures Calls(0, target, n).1 == n
    decreases n
  {
    if n > 0 { NoFullRate(target, n - 1); }
  }
}
