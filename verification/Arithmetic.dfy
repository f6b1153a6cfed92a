/** Remainders, and the `&` operator of C. */
module Arithmetic {
  lemma Multiple(n: int, m: int)
    requires n > 0
    ensures m >= 1 ==> n * m >= n
    ensures m <= -1 ==> n * m <= -n
  {
    if m >= 1 { assert n * m == n * (m - 1) + n; }
    if m <= -1 { assert n * m == n * (m + 1) - n; }
  }

  lemma RemainderIs(x: int, n: int, q: int, r: int)
    requires n > 0 && x == n * q + r && 0 <= r < n
    ensures x % n == r && x / n == q
  {
    var p, s := x / n, x % n;
    assert n * (q - p) == n * q - n * p == s - r;
    Multiple(n, q - p);
  }

  // ----- Products and quotients by name, for proofs that hide their definitions

  function Times(a: int, b: int): int { a * b }

  function Quotient(a: int, b: int): int
    requires b > 0
  {
    a / b
  }

  function Remainder(a: int, b: int): (r: int)
    requires b > 0
    ensures 0 <= r < b
  {
    a % b
  }

  lemma Division(a: int, b: int)
    requires b > 0
    ensures a == Times(b, Quotient(a, b)) + Remainder(a, b)
    ensures a >= 0 ==> Quotient(a, b) >= 0
  {
  }

  lemma DivisionIs(a: int, b: int, q: int, r: int)
    requires b > 0 && a == Times(b, q) + r && 0 <= r < b
    ensures Quotient(a, b) == q && Remainder(a, b) == r
  {
    RemainderIs(a, b, q, r);
  }

  lemma Commute(a: int, b: int)
    ensures Times(a, b) == Times(b, a)
  {
  }

  lemma Distribute(a: int, b: int, c: int)
    ensures Times(a, b + c) == Times(a, b) + Times(a, c)
    ensures Times(a, b - c) == Times(a, b) - Times(a, c)
  {
  }

  lemma Units(a: int)
    ensures Times(a, 1) == a && Times(1, a) == a && Times(a, 0) == 0 && Times(0, a) == 0
    ensures forall b :: b == -1 ==> Times(a, b) == -a
  {
  }

  lemma Signs(a: int, b: int)
    ensures a >= 0 && b >= 0 ==> Times(a, b) >= 0
    ensures a > 0 ==> (Times(a, b) > 0 <==> b > 0)
  {
    if a > 0 { Multiple(a, b); }
  }

  // ----- Masks

  /** The `&` of C on two's complement integers, for a mask that is not negative. */
  function And(x: int, mask: nat): (r: nat)
    ensures r <= mask
    decreases mask, x
  {
    if mask == 0 then 0 else (x % 2) * (mask % 2) + 2 * And(x / 2, mask / 2)
  }

  function Pow2(k: nat): (r: nat)
    ensures r > 0
  {
    if k == 0 then 1 else 2 * Pow2(k - 1)
  }

  /** Masking with a power of two less one is the remainder, for negative numbers too. */
  lemma {:induction false} MaskIsModulo(x: int, k: nat)
    ensures And(x, Pow2(k) - 1) == x % Pow2(k)
    decreases k
  {
    hide And;
    if k == 0 {
      AndStep(x, 0);
    } else {
      MaskIsModulo(x / 2, k - 1);
      AndStep(x, Pow2(k - 1) - 1);
      HalvesModulo(x, Pow2(k - 1));
    }
  }

  lemma AndStep(x: int, m: nat)
    ensures And(x, 0) == 0 && And(x, 2 * m + 1) == x % 2 + 2 * And(x / 2, m)
  {
    assert (2 * m + 1) % 2 == 1 && (2 * m + 1) / 2 == m;
  }

  lemma AndEven(x: int, m: nat)
    ensures And(x, 2 * m) == 2 * And(x / 2, m)
  {
    assert (2 * m) % 2 == 0 && (2 * m) / 2 == m;
  }

  /** A mask whose low hexadecimal digit is 0 looks at the rest of the number. */
  lemma AndDigit(x: int, m: nat)
    ensures And(x, 16 * m) == 16 * And(x / 16, m)
  {
    hide And;
    AndEven(x, 8 * m);
    AndEven(x / 2, 4 * m);
    AndEven(x / 4, 2 * m);
    AndEven(x / 8, m);
    assert x / 2 / 2 == x / 4 && x / 4 / 2 == x / 8 && x / 8 / 2 == x / 16;
  }

  lemma HalvesModulo(x: int, n: int)
    requires n > 0
    ensures x % 2 + 2 * ((x / 2) % n) == x % (2 * n)
  {
    var h := x / 2;
    var q, r := h / n, h % n;
    assert x == 2 * h + x % 2 && h == n * q + r;
    assert n * q * 2 == (2 * n) * q;
    RemainderIs(x, 2 * n, q, x % 2 + 2 * r);
  }

  // ----- Counting around a ring

  /** The slot of the `k`-th item behind the tail. */
  function Slot(tail: int, k: int, size: int): (r: int)
    requires size > 0
    ensures 0 <= r < size
  {
    (tail + k) % size
  }

  lemma SlotApart(tail: int, j: int, k: int, size: int)
    requires size > 0 && 0 <= j < size && 0 <= k < size && j != k
    ensures Slot(tail, j, size) != Slot(tail, k, size)
  {
    var p, q := (tail + j) / size, (tail + k) / size;
    var r, s := (tail + j) % size, (tail + k) % size;
    assert j - k == size * p - size * q + r - s == size * (p - q) + r - s;
    Multiple(size, p - q);
  }

  /** The position of slot `i` behind the tail. */
  function Position(tail: int, i: int, size: int): (k: int)
    requires size > 0
    ensures 0 <= k < size
  {
    (i - tail) % size
  }

  lemma SlotPosition(tail: int, i: int, size: int)
    requires size > 0 && 0 <= i < size
    ensures Slot(tail, Position(tail, i, size), size) == i
  {
    var q := (i - tail) / size;
    assert tail + Position(tail, i, size) == size * (-q) + i;
    RemainderIs(tail + Position(tail, i, size), size, -q, i);
  }

  lemma RingEmpty(tail: int, head: int, size: int)
    requires 0 <= tail < size && 0 <= head < size
    ensures Position(tail, head, size) == 0 <==> head == tail
  {
    if Position(tail, head, size) == 0 {
      SlotPosition(tail, head, size);
      RemainderIs(tail, size, 0, tail);
    }
  }

  lemma SlotWraps(tail: int, n: int, size: int)
    requires size > 0
    ensures Slot(tail, n, size) == Slot(tail, n % size, size)
  {
    var q, p := n / size, (tail + n % size) / size;
    var r := Slot(tail, n % size, size);
    assert tail + n == size * q + (size * p + r) == size * (q + p) + r;
    RemainderIs(tail + n, size, q + p, r);
  }

  lemma TailMoves(tail: int, head: int, size: int)
    requires 0 <= tail < size && 0 <= head < size && head != tail
    ensures Position(Slot(tail, 1, size), head, size) == Position(tail, head, size) - 1
  {
    RingEmpty(tail, head, size);
    var k, t := Position(tail, head, size), Slot(tail, 1, size);
    var q, p := (head - tail) / size, (tail + 1) / size;
    assert head - t == size * q + k - 1 + size * p == size * (q + p) + (k - 1);
    RemainderIs(head - t, size, q + p, k - 1);
  }

  lemma HeadMoves(tail: int, head: int, size: int)
    requires 0 <= tail < size && 0 <= head < size && Position(tail, head, size) != size - 1
    ensures Position(tail, Slot(head, 1, size), size) == Position(tail, head, size) + 1
  {
    var k, h := Position(tail, head, size), Slot(head, 1, size);
    var q, p := (head - tail) / size, (head + 1) / size;
    assert h - tail == size * q + k + 1 - size * p == size * (q - p) + (k + 1);
    RemainderIs(h - tail, size, q - p, k + 1);
  }

  /** Counting on from a tail that has moved by `j`. */
  lemma SlotShift(tail: int, j: int, k: int, size: int)
    requires size > 0
    ensures Slot(Slot(tail, j, size), k, size) == Slot(tail, j + k, size)
  {
    var q, p := (tail + j) / size, (Slot(tail, j, size) + k) / size;
    var r := Slot(Slot(tail, j, size), k, size);
    assert tail + j + k == size * q + (size * p + r) == size * (q + p) + r;
    RemainderIs(tail + j + k, size, q + p, r);
  }

  // ----- The items of a ring

  /** The `count` items from slot `tail` on. */
  function Window<T>(s: seq<T>, tail: int, count: nat): (w: seq<T>)
    requires |s| > 0
    ensures |w| == count && forall k :: 0 <= k < count ==> w[k] == s[Slot(tail, k, |s|)]
  {
    seq(count, k => s[Slot(tail, k, |s|)])
  }

  lemma WindowGrows<T>(s: seq<T>, tail: int, count: nat, x: T)
    requires count < |s|
    ensures Window(s[Slot(tail, count, |s|) := x], tail, count + 1) == Window(s, tail, count) + [x]
  {
    hide Slot;
    forall k | 0 <= k < count ensures Slot(tail, k, |s|) != Slot(tail, count, |s|) { SlotApart(tail, k, count, |s|); }
  }

  lemma WindowShrinks<T>(s: seq<T>, tail: int, count: nat, x: T)
    requires 0 < count < |s| && 0 <= tail < |s|
    ensures Window(s[tail := x], Slot(tail, 1, |s|), count - 1) == Window(s, tail, count)[1..]
  {
    hide Slot;
    SlotItself(tail, |s|);
    forall k | 0 <= k < count - 1
      ensures Slot(Slot(tail, 1, |s|), k, |s|) == Slot(tail, k + 1, |s|) != tail
    {
      SlotShift(tail, 1, k, |s|);
      SlotApart(tail, 0, k + 1, |s|);
    }
  }

  lemma SlotItself(tail: int, size: int)
    requires 0 <= tail < size
    ensures Slot(tail, 0, size) == tail
  {
  }

  function Exchanged<T>(s: seq<T>, i: nat, j: nat): seq<T>
    requires i < |s| && j < |s|
  {
    s[i := s[j]][j := s[i]]
  }

  lemma WindowExchange<T>(s: seq<T>, tail: int, count: nat, i: nat, j: nat)
    requires i < j < count <= |s|
    ensures Window(Exchanged(s, Slot(tail, i, |s|), Slot(tail, j, |s|)), tail, count) ==
            Exchanged(Window(s, tail, count), i, j)
  {
    hide Slot;
    forall k | 0 <= k < count
      ensures k != i ==> Slot(tail, k, |s|) != Slot(tail, i, |s|)
      ensures k != j ==> Slot(tail, k, |s|) != Slot(tail, j, |s|)
    {
      if k != i { SlotApart(tail, k, i, |s|); }
      if k != j { SlotApart(tail, k, j, |s|); }
    }
  }
}
