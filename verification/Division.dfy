/** 64-bit division by shifting and subtracting. Division by zero traps and is not part of the model. */
module Division {
  import opened Bits

  type UInt64 = x: int | 0 <= x < 0x1_0000_0000_0000_0000

  /** The 64-bit integers whose negation is one. */
  type Int64 = x: int | -0x8000_0000_0000_0000 < x < 0x8000_0000_0000_0000

  // ---------------------------------------------------------------------------
  // Unsigned
  // ---------------------------------------------------------------------------

  /** __udivmoddi4. No step leaves 64 bits. */
  method UDivMod(numerator: UInt64, denominator: UInt64) returns (quot: UInt64, rem: UInt64)
    requires denominator != 0
    ensures numerator == quot * denominator + rem && rem < denominator
  {
    hide Pow2;
    var num: UInt64, den: UInt64, qbit: UInt64 := numerator, denominator, 1;
    quot := 0;
    ghost var k: nat := 0;
    assert Pow2(0) == 1 by { FirstBit(); }
    while den < 0x8000_0000_0000_0000
      invariant den == denominator * qbit && qbit == Pow2(k)
      invariant den > 0
      decreases 0x1_0000_0000_0000_0000 - den
    {
      Doubled(denominator, qbit, k);
      den := den * 2;
      qbit := qbit * 2;
      k := k + 1;
    }
    while qbit != 0
      invariant numerator == quot * denominator + num
      invariant qbit != 0 ==> qbit == Pow2(k) && den == denominator * qbit && num < 2 * den
      invariant qbit == 0 ==> num < denominator
      decreases qbit
    {
      if den <= num {
        Subtracted(numerator, quot, denominator, num, qbit);
        num := num - den;
        quot := quot + qbit;
      }
      Halved(denominator, qbit, k);
      den := den / 2;
      qbit := qbit / 2;
      k := if k > 0 then k - 1 else 0;
    }
    rem := num;
  }

  lemma Grows(a: nat, b: nat)
    requires b > 0
    ensures a <= a * b
  {
    assert a * b == a * (b - 1) + a;
  }

  lemma FirstBit()
    ensures Pow2(0) == 1
  {
  }

  lemma Doubled(denominator: UInt64, qbit: UInt64, k: nat)
    requires denominator > 0 && denominator * qbit < 0x8000_0000_0000_0000 && qbit == Pow2(k)
    ensures 2 * qbit < 0x1_0000_0000_0000_0000 && 2 * qbit == Pow2(k + 1)
    ensures denominator * qbit * 2 == denominator * (qbit * 2) && denominator * qbit >= 1
  {
    Grows(qbit, denominator);
    Grows(denominator, qbit);
  }

  lemma Subtracted(numerator: UInt64, quot: UInt64, denominator: UInt64, num: UInt64, qbit: UInt64)
    requires numerator == quot * denominator + num && denominator * qbit <= num && denominator > 0
    ensures numerator == (quot + qbit) * denominator + (num - denominator * qbit)
    ensures quot + qbit <= numerator
  {
    assert (quot + qbit) * denominator == quot * denominator + denominator * qbit;
    Grows(quot + qbit, denominator);
  }

  lemma Halved(denominator: UInt64, qbit: UInt64, k: nat)
    requires qbit == Pow2(k)
    ensures k == 0 ==> qbit / 2 == 0
    ensures k > 0 ==> qbit / 2 == Pow2(k - 1) && (denominator * qbit) / 2 == denominator * (qbit / 2)
    ensures k > 0 ==> denominator * qbit == 2 * (denominator * (qbit / 2))
  {
    if k > 0 {
      assert qbit == 2 * Pow2(k - 1);
      assert denominator * qbit == 2 * (denominator * Pow2(k - 1));
    }
  }

  // ---------------------------------------------------------------------------
  // Signed
  // ---------------------------------------------------------------------------

  function Abs(x: int): nat { if x < 0 then -x else x }

  /** What section 6.5.5 of C99 asks of a quotient: it is truncated toward zero. */
  predicate Truncated(num: int, den: int, q: int) {
    Abs(num - q * den) < Abs(den) && (num - q * den == 0 || (num - q * den < 0 <==> num < 0))
  }

  lemma MultipleIsLarger(d: int, m: int)
    requires d != 0
    ensures Abs(d * m) >= Abs(m)
  {
    var n := if m < 0 then -m else m;
    Grows(n, Abs(d));
    assert n * Abs(d) == Abs(d * m) by {
      assert (0 - m) * d == 0 - m * d && m * (0 - d) == 0 - m * d && (0 - m) * (0 - d) == m * d;
    }
  }

  lemma TruncatedUnique(num: int, den: int, p: int, q: int)
    requires den != 0 && Truncated(num, den, p) && Truncated(num, den, q)
    ensures p == q
  {
    assert (q - p) * den == (num - p * den) - (num - q * den);
    if p != q { MultipleIsLarger(q - p, den); }
  }

  /** __divdi3. */
  method DivDI3(numerator: Int64, denominator: Int64) returns (v: Int64)
    requires denominator != 0
    ensures Truncated(numerator, denominator, v)
    ensures numerator >= 0 && denominator > 0 ==> v == numerator / denominator
    ensures numerator >= 0 && denominator < 0 ==> v == -(numerator / -denominator)
    ensures numerator < 0 && denominator > 0 ==> v == -(-numerator / denominator)
    ensures numerator < 0 && denominator < 0 ==> v == -numerator / -denominator
  {
    var num, den, minus := numerator, denominator, false;
    if num < 0 {
      num := -num;
      minus := true;
    }
    if den < 0 {
      den := -den;
      minus := !minus;
    }
    var quot, rem := UDivMod(num, den);
    SignedQuotient(numerator, denominator, quot, rem);
    ModUnique(num, den, quot, rem);
    v := quot;
    if minus {
      v := -v;
    }
  }

  function Signed(minus: bool, x: nat): int { if minus then 0 - x else x }

  lemma SignedQuotient(num: int, den: int, quot: nat, rem: nat)
    requires den != 0 && Abs(num) == quot * Abs(den) + rem && rem < Abs(den)
    ensures quot <= Abs(num)
    ensures Truncated(num, den, Signed((num < 0) != (den < 0), quot))
    ensures num - Signed((num < 0) != (den < 0), quot) * den == Signed(num < 0, rem)
  {
    Grows(quot, Abs(den));
    assert (0 - quot) * den == -(quot * den);
    assert quot * (-den) == -(quot * den);
  }

  /** __moddi3: the remainder's size is right, its sign is that of the quotient. */
  method ModDI3(numerator: Int64, denominator: Int64) returns (v: Int64)
    requires denominator != 0
    ensures Abs(v) < Abs(denominator)
    ensures numerator >= 0 && denominator > 0 ==> v == numerator % denominator
    ensures numerator >= 0 && denominator < 0 ==> v == -(numerator % -denominator)
    ensures numerator < 0 && denominator > 0 ==> v == -(-numerator % denominator)
    ensures numerator < 0 && denominator < 0 ==> v == -numerator % -denominator
    ensures forall q :: Truncated(numerator, denominator, q) ==>
              v == if denominator < 0 then -(numerator - q * denominator) else numerator - q * denominator
  {
    var num, den, minus := numerator, denominator, false;
    if num < 0 {
      num := -num;
      minus := true;
    }
    if den < 0 {
      den := -den;
      minus := !minus;
    }
    var quot, rem := UDivMod(num, den);
    SignedQuotient(numerator, denominator, quot, rem);
    ModUnique(num, den, quot, rem);
    v := rem;
    if minus {
      v := -v;
    }
    ghost var t := Signed((numerator < 0) != (denominator < 0), quot);
    forall q | Truncated(numerator, denominator, q) ensures q == t {
      TruncatedUnique(numerator, denominator, q, t);
    }
  }

  /**
     Quotient and remainder put together give back the numerator, as section 6.5.5 of C99
     asks, just when the denominator is positive or divides the numerator.
   */
  method DivideBack(num: Int64, den: Int64) returns (q: Int64, r: Int64)
    requires den != 0
    ensures num == q * den + r <==> den > 0 || num % den == 0
  {
    q := DivDI3(num, den);
    r := ModDI3(num, den);
    RemainderZero(num, den, q);
  }

  lemma RemainderZero(num: Int64, den: Int64, q: Int64)
    requires den != 0 && Truncated(num, den, q)
    ensures num % den == 0 <==> num == q * den
  {
    var p := num / den;
    assert num == p * den + num % den;
    if num % den == 0 {
      TruncatedUnique(num, den, q, p);
    } else if num == q * den {
      assert (q - p) * den == num % den;
      if p != q { MultipleIsLarger(q - p, den); }
    }
  }
}
