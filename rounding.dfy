/** Rounding of exact rationals to whole units, used for percentages kept in
    hundredths of a percent. The rule is round-half-to-even, the rule numpy's
    `round` applies to the scaled value. */
module Rounding {

  /** `r` is within one half of `num / den`:  (2r - 1) den <= 2 num <= (2r + 1) den. */
  predicate Nearest(num: nat, den: nat, r: nat)
  {
    2 * (r * den) <= 2 * num + den && 2 * num <= 2 * (r * den) + den
  }

  /** `num / den` lies exactly halfway between `r` and one of its neighbours. */
  predicate Tie(num: nat, den: nat, r: nat)
  {
    2 * (r * den) == 2 * num + den || 2 * num == 2 * (r * den) + den
  }

  /** `r` is `num / den` rounded to the nearest whole number, halves to even. */
  predicate IsRounding(num: nat, den: nat, r: nat)
  {
    Nearest(num, den, r) && (Tie(num, den, r) ==> r % 2 == 0)
  }

  lemma DivMod(num: nat, den: nat)
    requires den > 0
    ensures num == (num / den) * den + num % den && num % den < den
  {
  }

  lemma MulSucc(a: nat, b: nat)
    ensures (a + 1) * b == a * b + b
  {
  }

  lemma MulCancel(a: nat, b: nat, c: nat)
    requires c > 0 && a * c <= b * c
    ensures a <= b
  {
  }

  function RoundHalfEven(num: nat, den: nat): (r: nat)
    requires den > 0
    ensures IsRounding(num, den, r)
  {
    var q, rem := num / den, num % den;
    DivMod(num, den);
    MulSucc(q, den);
    if 2 * rem < den then q
    else if 2 * rem > den then q + 1
    else if q % 2 == 0 then q
    else q + 1
  }

  /** At most one whole number is the half-even rounding of `num / den`. */
  lemma RoundingUnique(num: nat, den: nat, r1: nat, r2: nat)
    requires den > 0
    requires IsRounding(num, den, r1) && IsRounding(num, den, r2)
    ensures r1 == r2
  {
    MulSucc(r1, den);
    MulSucc(r2, den);
    MulCancel(r1, r2 + 1, den);
    MulCancel(r2, r1 + 1, den);
    assert r1 == r2 + 1 ==> Tie(num, den, r1) && Tie(num, den, r2);
    assert r2 == r1 + 1 ==> Tie(num, den, r1) && Tie(num, den, r2);
  }

  /** Rounding an exact whole number gives that number. */
  lemma RoundExact(k: nat, den: nat)
    requires den > 0
    ensures RoundHalfEven(k * den, den) == k
  {
    assert IsRounding(k * den, den, k);
    RoundingUnique(k * den, den, k, RoundHalfEven(k * den, den));
  }

  /** Rounding never exceeds a whole-number upper bound of the quotient. */
  lemma RoundBelow(num: nat, den: nat, m: nat)
    requires den > 0 && num <= m * den
    ensures RoundHalfEven(num, den) <= m
  {
    var r := RoundHalfEven(num, den);
    MulSucc(m, den);
    MulCancel(r, m + 1, den);
    assert r * den <= m * den + den;
  }

  /** Rounding never falls below a whole-number lower bound of the quotient. */
  lemma RoundAbove(num: nat, den: nat, m: nat)
    requires den > 0 && m * den <= num
    ensures m <= RoundHalfEven(num, den)
  {
    var r := RoundHalfEven(num, den);
    MulSucc(r, den);
    MulCancel(m, r + 1, den);
  }

  /** `100 * missing / total` as a percentage rounded to two decimals, in
      hundredths of a percent (3000 stands for 30.00). */
  function Percentage(missing: nat, total: nat): (p: nat)
    requires total > 0
    ensures IsRounding(10000 * missing, total, p)
    ensures missing <= total ==> p <= 10000
    ensures missing == 0 ==> p == 0
    ensures missing == total ==> p == 10000
  {
    var p := RoundHalfEven(10000 * missing, total);
    assert missing <= total ==> p <= 10000 by {
      if missing <= total { RoundBelow(10000 * missing, total, 10000); }
    }
    assert missing == 0 ==> p == 0 by {
      if missing == 0 { RoundExact(0, total); }
    }
    assert missing == total ==> p == 10000 by {
      if missing == total { RoundExact(10000, total); }
    }
    p
  }

  /** The arithmetic mean of `count` values summing to `sum`, rounded the same way. */
  function Mean(sum: nat, count: nat): (m: nat)
    requires count > 0
    ensures IsRounding(sum, count, m)
    ensures forall bound: nat :: sum <= bound * count ==> m <= bound
  {
    var m := RoundHalfEven(sum, count);
    assert forall bound: nat :: sum <= bound * count ==> m <= bound by {
      forall bound: nat | sum <= bound * count ensures m <= bound {
        RoundBelow(sum, count, bound);
      }
    }
    m
  }
}
