/** math.c: 64-bit schoolbook division in base 2. */
module MathDiv {

  const TWO_63: nat := 0x8000_0000_0000_0000
  const TWO_64: nat := 0x1_0000_0000_0000_0000

  function Pow2(n: nat): (p: nat)
    ensures p > 0
  {
    if n == 0 then 1 else 2 * Pow2(n - 1)
  }

  /** Shifting a register left by one drops its top bit. */
  function Shl(x: nat): nat { 2 * x % TWO_64 }

  lemma ShlCases(x: nat)
    requires x < TWO_64
    ensures Shl(x) == if x < TWO_63 then 2 * x else 2 * x - TWO_64
  {
  }

  lemma {:induction false} Pow2Grows(i: nat, j: nat)
    requires i <= j
    ensures Pow2(i) <= Pow2(j)
    decreases j
  {
    if i < j {
      Pow2Grows(i, j - 1);
    }
  }

  lemma {:induction false} Pow2Adds(m: nat, n: nat)
    ensures Pow2(m + n) == Pow2(m) * Pow2(n)
    decreases n
  {
    if n > 0 {
      Pow2Adds(m, n - 1);
      Doubled(Pow2(m), Pow2(n - 1));
    }
  }

  lemma Doubled(x: nat, y: nat)
    ensures x * (2 * y) == 2 * (x * y) && (2 * x) * y == 2 * (x * y) && (2 * x + 1) * y == 2 * (x * y) + y
  {
  }

  lemma Pow2Of64()
    ensures Pow2(63) == TWO_63 && Pow2(64) == TWO_64
  {
    assert Pow2(8) == 0x100;
    hide Pow2;
    Pow2Adds(8, 8);
    Pow2Adds(16, 16);
    Pow2Adds(32, 32);
    Pow2Twice(63);
  }

  lemma Pow2Twice(n: nat)
    ensures Pow2(n + 1) == 2 * Pow2(n)
  {
  }

  /** After i rounds: prefix is the number the top i bits of the dividend form, and it has been divided. */
  ghost predicate Divided(dividend: nat, b: nat, i: nat, prefix: nat, a: nat, quot: nat, rem: nat) {
    && dividend * Pow2(i) == prefix * TWO_64 + a && a < TWO_64
    && prefix == quot * b + rem
    && rem <= prefix < Pow2(i) && quot < Pow2(i)
    && (b > 0 ==> rem < b)
    && (b == 0 ==> quot + 1 == Pow2(i))
  }

  /** The round as plain arithmetic. */
  lemma DividedStep(dividend: nat, b: nat, i: nat, prefix: nat, a: nat, quot: nat, rem: nat, bit: nat)
    requires Divided(dividend, b, i, prefix, a, quot, rem) && bit == if a >= TWO_63 then 1 else 0
    ensures var r := 2 * rem + bit;
            Divided(dividend, b, i + 1, 2 * prefix + bit, 2 * a - bit * TWO_64,
                    if r >= b then 2 * quot + 1 else 2 * quot, if r >= b then r - b else r)
  {
    hide Pow2;
    Pow2Twice(i);
    Doubled(dividend, Pow2(i));
    Doubled(quot, b);
    var product, wide, divided := dividend * Pow2(i), prefix * TWO_64, quot * b;
    assert (2 * prefix + bit) * TWO_64 == 2 * wide + bit * TWO_64;
  }

  lemma AllRead(dividend: nat, prefix: nat, a: nat)
    requires dividend * TWO_64 == prefix * TWO_64 + a && a < TWO_64
    ensures prefix == dividend
  {
    assert (dividend - prefix) * TWO_64 == a;
  }

  /** Quotient and remainder for every divisor, also above 2^63; dividing by zero gives all ones and the dividend. */
  method Udiv64Slow(dividend: nat, b: nat) returns (quot: nat, rem: nat)
    requires dividend < TWO_64 && b < TWO_64
    ensures b > 0 ==> dividend == quot * b + rem && rem < b
    ensures b == 0 ==> quot == TWO_64 - 1 && rem == dividend
  {
    hide Pow2, Divided, Shl;
    var a: nat := dividend;
    quot, rem := 0, 0;
    ghost var prefix: nat := 0;
    DividedStart(dividend, b);
    var i := 0;
    while i < 64
      invariant i <= 64 && Divided(dividend, b, i, prefix, a, quot, rem)
    {
      ghost var bit: nat := if a >= TWO_63 then 1 else 0;
      DividedStep(dividend, b, i, prefix, a, quot, rem, bit);
      NoOverflow(dividend, b, i, prefix, a, quot, rem);
      ShlCases(rem);
      ShlCases(quot);
      ShlCases(a);
      rem := Shl(rem);
      quot := Shl(quot);
      if a >= TWO_63 {
        rem := rem + 1;
      }
      a := Shl(a);
      if rem >= b {
        rem := rem - b;
        quot := quot + 1;
      }
      prefix := 2 * prefix + bit;
      i := i + 1;
    }
    DividedEnd(dividend, b, prefix, a, quot, rem);
  }

  lemma DividedStart(dividend: nat, b: nat)
    requires dividend < TWO_64
    ensures Divided(dividend, b, 0, 0, dividend, 0, 0)
  {
  }

  /** Neither register loses a bit when it is shifted, because neither exceeds the prefix read so far. */
  lemma NoOverflow(dividend: nat, b: nat, i: nat, prefix: nat, a: nat, quot: nat, rem: nat)
    requires i < 64 && Divided(dividend, b, i, prefix, a, quot, rem)
    ensures rem < TWO_63 && quot < TWO_63 && a < TWO_64
  {
    Pow2Grows(i, 63);
    Pow2Of64();
  }

  lemma DividedEnd(dividend: nat, b: nat, prefix: nat, a: nat, quot: nat, rem: nat)
    requires Divided(dividend, b, 64, prefix, a, quot, rem)
    ensures dividend == quot * b + rem && (b > 0 ==> rem < b) && (b == 0 ==> quot == TWO_64 - 1)
  {
    Pow2Of64();
    hide Pow2;
    AllRead(dividend, prefix, a);
  }
}
