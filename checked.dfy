/**
 * The checked product behind both factorials: `(1..=n).try_fold(1, |acc, x|
 * acc.checked_mul(x))`, where a product above the accumulator type's maximum
 * stops the fold with None.
 */
module Checked {
  import opened Wrappers

  /** Largest value of an i32 accumulator. */
  const I32Max: nat := 0x7FFF_FFFF
  /** Largest value of a u128 accumulator. */
  const U128Max: nat := 0xFFFF_FFFF_FFFF_FFFF_FFFF_FFFF_FFFF_FFFF

  /** n!, exactly. */
  function Fact(n: nat): (r: nat)
    ensures r >= 1
  {
    if n == 0 then 1 else n * Fact(n - 1)
  }

  lemma {:induction false} FactMonotone(m: nat, n: nat)
    requires m <= n
    ensures Fact(m) <= Fact(n)
    decreases n
  {
    if m < n {
      FactMonotone(m, n - 1);
    }
  }

  /** The fold over 1..=n, left to right, failing as soon as a product exceeds max. */
  function CheckedFactorial(n: nat, max: nat): (r: Option<nat>)
    ensures r.Some? ==> r.value >= 1 && (n > 0 ==> r.value <= max)
  {
    if n == 0 then Some(1)
    else
      match CheckedFactorial(n - 1, max)
      case None => None
      case Some(acc) => if acc * n <= max then Some(acc * n) else None
  }

  /** The checked fold yields n! exactly when n! fits, and fails otherwise. */
  lemma {:induction false} CheckedFactorialFits(n: nat, max: nat)
    requires max >= 1
    ensures CheckedFactorial(n, max).Some? <==> Fact(n) <= max
    ensures CheckedFactorial(n, max).Some? ==> CheckedFactorial(n, max).value == Fact(n)
  {
    if n > 0 {
      CheckedFactorialFits(n - 1, max);
      FactMonotone(n - 1, n);
      assert Fact(n) == Fact(n - 1) * n;
    }
  }

  /** With k! the largest factorial that fits, the fold succeeds exactly for n <= k. */
  lemma CheckedFactorialThreshold(n: nat, max: nat, k: nat)
    requires Fact(k) <= max < Fact(k + 1)
    ensures CheckedFactorial(n, max).Some? <==> n <= k
    ensures n <= k ==> CheckedFactorial(n, max) == Some(Fact(n))
  {
    CheckedFactorialFits(n, max);
    if n <= k {
      FactMonotone(n, k);
    } else {
      FactMonotone(k + 1, n);
    }
  }

  lemma I32Threshold()
    ensures Fact(12) <= I32Max < Fact(13)
  {
    assert Fact(12) == 479001600;
  }

  lemma U128Threshold()
    ensures Fact(34) <= U128Max < Fact(35)
  {
    assert Fact(4) == 24;
    assert Fact(7) == 5040;
    assert Fact(10) == 3628800;
    assert Fact(13) == 6227020800;
    assert Fact(16) == 20922789888000;
    assert Fact(19) == 121645100408832000;
    assert Fact(22) == 1124000727777607680000;
    assert Fact(25) == 15511210043330985984000000;
    assert Fact(28) == 304888344611713860501504000000;
    assert Fact(31) == 8222838654177922817725562880000000;
    assert Fact(34) == 295232799039604140847618609643520000000;
  }
}
