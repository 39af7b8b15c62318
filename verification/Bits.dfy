/** Bitwise AND of machine words, as arithmetic on their values. */
module Bits {

  function Pow2(k: nat): (p: nat)
    ensures p > 0
  {
    if k == 0 then 1 else 2 * Pow2(k - 1)
  }

  ghost predicate IsPow2(n: int) {
    exists k: nat :: n == Pow2(k)
  }

  /** `a & b`, bit by bit. */
  function And(a: nat, b: nat): (r: nat)
    ensures r <= b
  {
    if a == 0 || b == 0 then 0
    else (if a % 2 == 1 && b % 2 == 1 then 1 else 0) + 2 * And(a / 2, b / 2)
  }

  /** `a >> k`. */
  function ShiftRight(a: nat, k: nat): nat {
    if k == 0 then a else ShiftRight(a / 2, k - 1)
  }

  lemma {:induction false} ShiftIsQuotient(a: nat, k: nat)
    ensures ShiftRight(a, k) == a / Pow2(k)
  {
    if k > 0 {
      ShiftIsQuotient(a / 2, k - 1);
      HalfDiv(a, Pow2(k - 1));
    }
  }

  lemma HalfDiv(n: nat, m: nat)
    requires m > 0
    ensures n / (2 * m) == (n / 2) / m
  {
    var q, r := (n / 2) / m, (n / 2) % m;
    assert n / 2 == q * m + r;
    assert n == q * (2 * m) + (2 * r + n % 2);
    ModUnique(n, 2 * m, q, 2 * r + n % 2);
  }

  lemma {:induction false} Pow2Add(i: nat, j: nat)
    ensures Pow2(i + j) == Pow2(i) * Pow2(j)
  {
    if i > 0 { Pow2Add(i - 1, j); }
  }

  lemma {:induction false} Pow2Monotone(i: nat, j: nat)
    requires i <= j
    ensures Pow2(i) <= Pow2(j)
    decreases j
  {
    if i < j { Pow2Monotone(i, j - 1); }
  }

  /** `2 * (n mod m) + low bit` is the remainder by `2 * m`. */
  lemma HalfMod(n: nat, m: nat)
    requires m > 0
    ensures n % (2 * m) == 2 * ((n / 2) % m) + n % 2
  {
    var q, r := (n / 2) / m, (n / 2) % m;
    assert n / 2 == q * m + r;
    assert n == q * (2 * m) + (2 * r + n % 2);
    ModUnique(n, 2 * m, q, 2 * r + n % 2);
  }

  /** Unsigned division, as functions whose meaning a proof need not look into. */
  function Quotient(a: nat, b: nat): nat
    requires b > 0
  {
    a / b
  }

  function Remainder(a: nat, b: nat): (r: nat)
    requires b > 0
    ensures r < b
  {
    a % b
  }

  lemma MulAtLeast(x: int, d: int)
    requires x >= 1 && d > 0
    ensures x * d >= d
  {
    assert (x - 1) * d >= 0;
  }

  lemma ModUnique(n: int, d: int, q: int, r: int)
    requires d > 0 && 0 <= r < d && n == q * d + r
    ensures n / d == q && n % d == r
  {
    var q', r' := n / d, n % d;
    assert n == q' * d + r';
    assert (q - q') * d == q * d - q' * d == r' - r;
    if q > q' { MulAtLeast(q - q', d); }
    assert (q' - q) * d == -((q - q') * d);
    if q < q' { MulAtLeast(q' - q, d); }
  }

  lemma SmallMod(a: int, m: int)
    requires 0 <= a < m
    ensures a % m == a
  {
  }

  lemma Halves(h: int)
    ensures (2 * h) % 2 == 0 && (2 * h) / 2 == h
    ensures (2 * h + 1) % 2 == 1 && (2 * h + 1) / 2 == h
  {
  }

  /** Masking with `2^k - 1` is the remainder by `2^k`. */
  lemma {:induction false} AndLowMask(a: nat, k: nat)
    ensures And(a, Pow2(k) - 1) == a % Pow2(k)
  {
    if k == 0 {
    } else if a == 0 {
      ModUnique(0, Pow2(k), 0, 0);
    } else {
      var m := Pow2(k - 1);
      AndLowMask(a / 2, k - 1);
      HalfMod(a, m);
      Halves(m - 1);
      assert Pow2(k) - 1 == 2 * (m - 1) + 1;
    }
  }

  /** Masking with the complement of `2^k - 1` in an `n`-bit word clears the remainder by `2^k`. */
  lemma {:induction false} AndHighMask(a: nat, k: nat, n: nat)
    requires k <= n && a < Pow2(n)
    ensures Pow2(n) >= Pow2(k)
    ensures And(a, Pow2(n) - Pow2(k)) == a - a % Pow2(k)
  {
    hide And, Pow2;
    Pow2Monotone(k, n);
    Pow2Doubles(k);
    Pow2Doubles(n);
    AndZero(a, 0);
    AndZero(0, Pow2(n) - Pow2(k));
    if k == 0 {
      AndLowMask(a, n);
      SmallMod(a, Pow2(n));
    } else if k == n {
      SmallMod(a, Pow2(k));
    } else if a == 0 {
      SmallMod(0, Pow2(k));
    } else {
      AndHighMask(a / 2, k - 1, n - 1);
      AndDoubled(a, Pow2(k - 1), Pow2(n - 1) - Pow2(k - 1));
    }
  }

  lemma Pow2Doubles(k: nat)
    ensures Pow2(k) == if k == 0 then 1 else 2 * Pow2(k - 1)
  {
  }

  lemma AndZero(a: nat, b: nat)
    ensures a == 0 || b == 0 ==> And(a, b) == 0
  {
  }

  lemma AndDoubled(a: nat, m: nat, h: nat)
    requires m > 0 && And(a / 2, h) == a / 2 - (a / 2) % m
    ensures And(a, 2 * h) == a - a % (2 * m)
  {
    HalfMod(a, m);
    Halves(h);
    assert a == 2 * (a / 2) + a % 2;
    if a == 0 || h == 0 {
      assert And(a / 2, h) == 0;
    } else {
      assert And(a, 2 * h) == 2 * And(a / 2, h);
    }
  }

  lemma OffsetInRegion(a: int, m: int, start: int)
    requires m > 0 && start % m == 0 && start <= a < start + m
    ensures a % m == a - start
  {
    var q := start / m;
    assert start == m * q + start % m;
    ModUnique(a, m, q, a - start);
  }

  /** Clearing the low bits of an address inside an aligned region gives the region's start. */
  lemma AlignDown(a: nat, k: nat, n: nat, start: nat)
    requires k <= n && a < Pow2(n) && start % Pow2(k) == 0 && start <= a < start + Pow2(k)
    ensures Pow2(n) >= Pow2(k)
    ensures And(a, Pow2(n) - Pow2(k)) == start
  {
    AndHighMask(a, k, n);
    OffsetInRegion(a, Pow2(k), start);
  }
}
