/** Election wins: the inverted Poisson distribution function in 256-bit fixed point, against the exact one. */
module Poisson {

  import opened Common

  const PRECISION: nat := 256
  const BLOCKS_PER_EPOCH: nat := 5
  const MAX_WIN_COUNT: nat := 3 * BLOCKS_PER_EPOCH

  /** One, in fixed point. */
  function One(): (q: nat)
    ensures q > 0
  {
    Pow2(PRECISION)
  }

  /** The rate, in fixed point. */
  function Lambda(power: nat, totalPower: nat): nat
    requires totalPower > 0
  {
    Scale(power * BLOCKS_PER_EPOCH, One(), totalPower)
  }

  /** A fixed-point product: multiply, then shift. */
  function Scale(a: nat, b: nat, q: nat): nat
    requires q > 0
  {
    a * b / q
  }

  /** The probability mass as computed, from its value at 0; one is `q`. */
  function Mass(q: nat, lam: nat, start: nat, k: nat): nat
    requires q > 0
  {
    if k == 0 then start else Scale(Mass(q, lam, start, k - 1) / k, lam, q)
  }

  /** The inverted distribution function as computed. */
  function Tail(q: nat, lam: nat, start: nat, k: nat): int
    requires q > 0
  {
    if k == 0 then q - start else Tail(q, lam, start, k - 1) - Mass(q, lam, start, k)
  }

  /** The number of wins for thresholds that are tried in turn, up to a cap. */
  ghost function Wins(h: real, threshold: nat -> real, j: nat): nat
    requires j <= MAX_WIN_COUNT
    decreases MAX_WIN_COUNT - j
  {
    if j == MAX_WIN_COUNT || h >= threshold(j) then j else Wins(h, threshold, j + 1)
  }

  ghost function Computed(q: nat, lam: nat, start: nat): nat -> real
    requires q > 0
  {
    (k: nat) => Tail(q, lam, start, k) as real
  }

  /** `one` is one in the fixed-point format. */
  class Poiss {
    const one: nat
    var lam: nat
    var pmf: nat
    var icdf: int
    var k: nat

    /** `elam` is the exponential of the negated rate. */
    constructor (one: nat, lam: nat, elam: nat)
      requires one > 0
      ensures this.one == one && At(lam, elam, 0)
    {
      this.one, this.lam, pmf, icdf, k := one, lam, elam, one - elam, 0;
    }

    ghost predicate At(rate: nat, start: nat, n: nat)
      reads this
    {
      && one > 0 && lam == rate && k == n
      && pmf == Mass(one, rate, start, n) && icdf == Tail(one, rate, start, n)
    }

    method Next(ghost start: nat) returns (r: int)
      requires At(lam, start, k)
      modifies this`pmf, this`icdf, this`k
      ensures At(lam, start, old(k) + 1) && r == icdf
    {
      k := k + 1;
      pmf := Scale(pmf / k, lam, one);
      icdf := icdf - pmf;
      r := icdf;
    }
  }

  lemma WinsAt(hash: nat, q: nat, lam: nat, start: nat, j: nat)
    requires q > 0 && j <= MAX_WIN_COUNT
    ensures Wins(hash as real, Computed(q, lam, start), j) ==
            if j < MAX_WIN_COUNT && hash < Tail(q, lam, start, j) then Wins(hash as real, Computed(q, lam, start), j + 1)
            else j
  {
  }

  /** The wins are still to be counted from `j` on. */
  ghost predicate Counting(hash: nat, q: nat, lam: nat, start: nat, j: nat)
    requires q > 0 && j <= MAX_WIN_COUNT
  {
    Wins(hash as real, Computed(q, lam, start), 0) == Wins(hash as real, Computed(q, lam, start), j)
  }

  lemma OneMoreWin(hash: nat, q: nat, lam: nat, start: nat, j: nat)
    requires q > 0 && j < MAX_WIN_COUNT && hash < Tail(q, lam, start, j) && Counting(hash, q, lam, start, j)
    ensures Counting(hash, q, lam, start, j + 1)
  {
    WinsAt(hash, q, lam, start, j);
  }

  method CountWins(one: nat, hash: nat, lam: nat, elam: nat) returns (j: nat)
    requires one > 0
    ensures j == Wins(hash as real, Computed(one, lam, elam), 0)
  {
    var p := new Poiss(one, lam, elam);
    var rhs := p.icdf;
    j := 0;
    while hash < rhs && j < MAX_WIN_COUNT
      invariant j <= MAX_WIN_COUNT && p.one == one && p.At(lam, elam, j) && rhs == p.icdf
      invariant Counting(hash, one, lam, elam, j)
    {
      OneMoreWin(hash, one, lam, elam, j);
      rhs := p.Next(elam);
      j := j + 1;
    }
    WinsAt(hash, one, lam, elam, j);
  }

  /** compute_win_count; `hash` is the digest of the proof, `expneg` the exponential. */
  method ComputeWinCount(hash: nat, power: nat, totalPower: nat, expneg: nat -> nat) returns (j: nat)
    requires totalPower > 0
    ensures var lam := Lambda(power, totalPower);
            j == Wins(hash as real, Computed(One(), lam, expneg(lam)), 0)
  {
    var lam := Lambda(power, totalPower);
    j := CountWins(One(), hash, lam, expneg(lam));
  }

  // ---- shape ----

  lemma {:induction false} TailDecreases(q: nat, lam: nat, start: nat, i: nat, j: nat)
    requires q > 0 && i <= j
    ensures Tail(q, lam, start, j) <= Tail(q, lam, start, i)
  {
    if i >= j {
    } else {
      TailDecreases(q, lam, start, i, j - 1);
    }
  }

  lemma {:induction false} WinsFrom(h: real, threshold: nat -> real, j: nat)
    requires j <= MAX_WIN_COUNT
    ensures j <= Wins(h, threshold, j) <= MAX_WIN_COUNT
    decreases MAX_WIN_COUNT - j
  {
    if j >= MAX_WIN_COUNT || h >= threshold(j) {
    } else {
      WinsFrom(h, threshold, j + 1);
    }
  }

  /** Higher thresholds or a smaller draw never lose a win. */
  lemma {:induction false} WinsMonotone(g: real, h: real, low: nat -> real, high: nat -> real, j: nat)
    requires h <= g && j <= MAX_WIN_COUNT && forall k | j <= k < MAX_WIN_COUNT :: low(k) <= high(k)
    ensures Wins(g, low, j) <= Wins(h, high, j)
    decreases MAX_WIN_COUNT - j
  {
    if j >= MAX_WIN_COUNT {
    } else {
      WinsFrom(h, high, j);
      if h < high(j) {
        WinsMonotone(g, h, low, high, j + 1);
        WinsFrom(h, high, j + 1);
      }
    }
  }

  /** The number of wins is the least number whose tail the draw reaches, or the cap. */
  lemma {:induction false} WinsIsLeast(h: nat, q: nat, lam: nat, start: nat, w: nat)
    requires q > 0 && w == Wins(h as real, Computed(q, lam, start), 0)
    ensures w <= MAX_WIN_COUNT
    ensures forall j | 0 <= j < MAX_WIN_COUNT :: j < w <==> h < Tail(q, lam, start, j)
  {
    WinsIsLeastFrom(h, q, lam, start, 0);
  }

  lemma {:induction false} WinsIsLeastFrom(h: nat, q: nat, lam: nat, start: nat, i: nat)
    requires q > 0 && i <= MAX_WIN_COUNT
    ensures i <= Wins(h as real, Computed(q, lam, start), i) <= MAX_WIN_COUNT
    ensures forall j | i <= j < MAX_WIN_COUNT ::
              j < Wins(h as real, Computed(q, lam, start), i) <==> h < Tail(q, lam, start, j)
    decreases MAX_WIN_COUNT - i
  {
    if i >= MAX_WIN_COUNT {
    } else {
      if h as real < Computed(q, lam, start)(i) {
        WinsIsLeastFrom(h, q, lam, start, i + 1);
      } else {
        forall j | i <= j < MAX_WIN_COUNT
          ensures h >= Tail(q, lam, start, j)
        {
          TailDecreases(q, lam, start, i, j);
        }
      }
    }
  }

  // ---- accuracy ----

  /** The exact mass for a real rate. */
  ghost function ExactMass(rate: real, start: real, k: nat): real {
    if k == 0 then start else ExactMass(rate, start, k - 1) * rate / k as real
  }

  ghost function ExactTail(one: real, rate: real, start: real, k: nat): real {
    if k == 0 then one - start else ExactTail(one, rate, start, k - 1) - ExactMass(rate, start, k)
  }

  ghost function Exact(q: nat, lam: nat, start: nat): nat -> real
    requires q > 0
  {
    (k: nat) => ExactTail(q as real, lam as real / q as real, start as real, k)
  }

  function Factorial(k: nat): (f: nat)
    ensures f > 0
  {
    if k == 0 then 1 else FactorialPositive(k, Factorial(k - 1)); k * Factorial(k - 1)
  }

  lemma FactorialPositive(k: nat, f: nat)
    requires k > 0 && f > 0
    ensures k * f > 0
  {
  }

  ghost function Power(x: real, k: nat): real {
    if k == 0 then 1.0 else Power(x, k - 1) * x
  }

  /** The exact masses are those of the Poisson distribution, start * rate^k / k!. */
  lemma {:induction false} MassIsPoisson(rate: real, start: real, k: nat)
    ensures ExactMass(rate, start, k) * Factorial(k) as real == start * Power(rate, k)
  {
    if k == 0 {
    } else {
      MassIsPoisson(rate, start, k - 1);
      var e, f := ExactMass(rate, start, k - 1), Factorial(k - 1) as real;
      ExactStep(rate, start, k, e);
      assert Factorial(k) == k * Factorial(k - 1);
      PoissonStep(e, f, start, Power(rate, k - 1), rate, k as real, ExactMass(rate, start, k), Factorial(k) as real);
    }
  }

  lemma ExactStep(rate: real, start: real, k: nat, e: real)
    requires k > 0 && e == ExactMass(rate, start, k - 1)
    ensures ExactMass(rate, start, k) == e * rate / k as real
  {
  }

  lemma PoissonStep(e: real, f: real, start: real, p: real, rate: real, d: real, mass: real, factorial: real)
    requires d > 0.0 && mass == e * rate / d && factorial == d * f && e * f == start * p
    ensures mass * factorial == start * (p * rate)
  {
    assert mass * d == e * rate;
    Regroup(mass, d, f);
    assert e * rate * f == e * f * rate;
    Regroup(start, p, rate);
  }

  lemma Regroup(a: real, b: real, c: real)
    ensures a * b * c == a * (b * c)
  {
  }

  /** The first masses, up to the k-th, together. */
  ghost function MassSum(rate: real, start: real, k: nat): real {
    ExactMass(rate, start, k) + if k == 0 then 0.0 else MassSum(rate, start, k - 1)
  }

  /** The exact tail is what the first masses leave of one: the chance of more than k wins. */
  lemma {:induction false} TailIsComplement(one: real, rate: real, start: real, k: nat)
    ensures ExactTail(one, rate, start, k) == one - MassSum(rate, start, k)
  {
    if k == 0 {
    } else {
      TailIsComplement(one, rate, start, k - 1);
    }
  }

  lemma Sign(p: real, y: real)
    requires y > 0.0
    ensures (p * y > 0.0 <==> p > 0.0) && (p * y < 0.0 <==> p < 0.0)
  {
  }

  lemma FloorBounds(a: nat, d: nat)
    requires d > 0
    ensures a as real / d as real - 1.0 <= (a / d) as real <= a as real / d as real
  {
    var f := a / d;
    assert f * d <= a < f * d + d;
    RatioBounds(a as real, d as real, f as real, (f * d) as real);
  }

  lemma RatioBounds(x: real, y: real, f: real, m: real)
    requires y > 0.0 && m == f * y && m <= x < m + y
    ensures x / y - 1.0 <= f <= x / y
  {
    var r := x / y;
    assert r * y == x;
    assert (f - r) * y == m - x;
    Sign(f - r, y);
    assert (r - 1.0 - f) * y == x - y - m;
    Sign(r - 1.0 - f, y);
  }

  lemma QuotientsApart(x: real, y: real, l: real, d: real)
    requires d > 0.0 && 0.0 <= y - x <= l
    ensures 0.0 <= y / d - x / d <= l / d
  {
    var u, w, z := x / d, y / d, l / d;
    assert u * d == x && w * d == y && z * d == l;
    assert (w - u) * d == y - x;
    Sign(w - u, d);
    assert (w - u - z) * d == y - x - l;
    Sign(w - u - z, d);
  }

  lemma DivideLater(x: real, rate: real, d: real)
    requires d > 0.0
    ensures x * rate / d == x / d * rate
  {
  }

  lemma ScaleBounds(a: nat, lam: nat, q: nat, rate: real)
    requires q > 0 && rate == lam as real / q as real
    ensures a as real * rate - 1.0 <= Scale(a, lam, q) as real <= a as real * rate
  {
    FloorBounds(a * lam, q);
    var x, l, y := a as real, lam as real, q as real;
    assert (a * lam) as real == x * l;
    assert x * l / y == x * (l / y);
  }

  lemma RateBounded(lam: nat, q: nat)
    requires q > 0 && lam <= 5 * q
    ensures 0.0 <= lam as real / q as real <= 5.0
  {
    var r := lam as real / q as real;
    assert r * q as real == lam as real;
    Sign(r, q as real);
    assert (r - 5.0) * q as real == lam as real - 5.0 * q as real;
    Sign(r - 5.0, q as real);
  }

  /** One rounding step: dividing, then scaling, loses at most the rate and one. */
  lemma StepLoss(p: nat, exact: real, q: nat, lam: nat, k: nat, loss: real, rate: real)
    requires q > 0 && k > 0 && lam <= 5 * q && 0.0 <= exact - p as real <= loss && rate == lam as real / q as real
    ensures 0.0 <= exact * rate / k as real - Scale(p / k, lam, q) as real <= 5.0 * (loss / k as real) + 6.0
  {
    var kk := k as real;
    FloorBounds(p, k);
    ScaleBounds(p / k, lam, q, rate);
    RateBounded(lam, q);
    QuotientsApart(p as real, exact, loss, kk);
    DivideLater(exact, rate, kk);
    Scaled(exact / kk, (p / k) as real, p as real / kk, loss / kk, rate, Scale(p / k, lam, q) as real);
  }

  lemma Scaled(y: real, a: real, x: real, l: real, rate: real, b: real)
    requires 0.0 <= y - x <= l && 0.0 <= rate <= 5.0 && x - 1.0 <= a <= x && a * rate - 1.0 <= b <= a * rate
    ensures 0.0 <= y * rate - b <= 5.0 * l + 6.0
  {
    var d := y - a;
    assert 0.0 <= d <= l + 1.0;
    assert y * rate - a * rate == d * rate;
    assert 0.0 <= d * rate;
    assert d * (5.0 - rate) >= 0.0;
  }

  /** The units in the last place that may be lost by the k-th mass. */
  function Loss(k: nat): real {
    if k == 0 then 0.0 else if k == 1 then 6.0 else if k == 2 then 21.0 else if k == 3 then 41.0
    else if k == 4 then 58.0 else 64.0
  }

  lemma LossStep(k: nat)
    requires k > 0
    ensures 5.0 * (Loss(k - 1) / k as real) + 6.0 <= Loss(k)
  {
    if k >= 6 {
      var d := k as real;
      QuotientsApart(0.0, 64.0, 64.0, d);
      var z := 64.0 / d;
      assert z * d == 64.0;
      assert (z - 11.0) * d == 64.0 - 11.0 * d;
      Sign(z - 11.0, d);
    }
  }

  /** The computed mass is below the exact one by at most 64 units in the last place. */
  lemma {:induction false} MassIsAccurate(q: nat, lam: nat, start: nat, rate: real, k: nat)
    requires q > 0 && lam <= 5 * q && rate == lam as real / q as real
    ensures 0.0 <= ExactMass(rate, start as real, k) - Mass(q, lam, start, k) as real <= Loss(k)
  {
    if k == 0 {
    } else {
      MassIsAccurate(q, lam, start, rate, k - 1);
      var p, e := Mass(q, lam, start, k - 1), ExactMass(rate, start as real, k - 1);
      StepLoss(p, e, q, lam, k, Loss(k - 1), rate);
      LossStep(k);
      MassStep(q, lam, start, rate, k, p, e);
    }
  }

  lemma MassStep(q: nat, lam: nat, start: nat, rate: real, k: nat, p: nat, e: real)
    requires q > 0 && k > 0 && p == Mass(q, lam, start, k - 1) && e == ExactMass(rate, start as real, k - 1)
    ensures Mass(q, lam, start, k) == Scale(p / k, lam, q)
    ensures ExactMass(rate, start as real, k) == e * rate / k as real
  {
    ExactStep(rate, start as real, k, e);
  }

  lemma {:induction false} TailIsAccurate(q: nat, lam: nat, start: nat, rate: real, k: nat)
    requires q > 0 && lam <= 5 * q && rate == lam as real / q as real
    ensures 0.0 <= Tail(q, lam, start, k) as real - ExactTail(q as real, rate, start as real, k) <= 64.0 * k as real
  {
    if k == 0 {
    } else {
      TailIsAccurate(q, lam, start, rate, k - 1);
      MassIsAccurate(q, lam, start, rate, k);
    }
  }

  /**
   The number of wins against the exact distribution: never fewer, and no more than a draw smaller by
   960 units in the last place would win.
   */
  lemma WinsAreAccurate(h: real, q: nat, lam: nat, start: nat)
    requires q > 0 && lam <= 5 * q
    ensures Wins(h, Exact(q, lam, start), 0) <= Wins(h, Computed(q, lam, start), 0)
         <= Wins(h - 960.0, Exact(q, lam, start), 0)
  {
    var exact, computed := Exact(q, lam, start), Computed(q, lam, start);
    var raised := (k: nat) => exact(k) + 960.0;
    forall k | 0 <= k < MAX_WIN_COUNT
      ensures exact(k) <= computed(k) <= raised(k)
    {
      TailIsAccurate(q, lam, start, lam as real / q as real, k);
    }
    WinsMonotone(h, h, exact, computed, 0);
    WinsMonotone(h, h, computed, raised, 0);
    WinsShift(h, exact, raised, 0);
  }

  lemma {:induction false} WinsShift(h: real, exact: nat -> real, raised: nat -> real, j: nat)
    requires j <= MAX_WIN_COUNT && forall k :: raised(k) == exact(k) + 960.0
    ensures Wins(h, raised, j) == Wins(h - 960.0, exact, j)
    decreases MAX_WIN_COUNT - j
  {
    if j >= MAX_WIN_COUNT {
    } else {
      WinsShift(h, exact, raised, j + 1);
    }
  }

  /** A miner with no more than the total power has a rate of at most five. */
  lemma FloorOf(a: nat, q: nat)
    requires q > 0
    ensures a / q * q <= a < (a / q + 1) * q
  {
  }

  /** The rate is five times the share of the power, rounded down at the 256th binary place. */
  lemma LambdaIsShare(power: nat, totalPower: nat)
    requires totalPower > 0
    ensures var lam := Lambda(power, totalPower);
            lam * totalPower <= 5 * power * Pow2(256) < (lam + 1) * totalPower
  {
    FloorOf(power * BLOCKS_PER_EPOCH * One(), totalPower);
  }

  lemma LambdaBounded(power: nat, totalPower: nat)
    requires 0 < totalPower && power <= totalPower
    ensures Lambda(power, totalPower) <= 5 * One()
  {
    ShareBounded(power, totalPower, One());
  }

  lemma ShareBounded(power: nat, total: nat, q: nat)
    requires 0 < total && power <= total
    ensures Scale(power * BLOCKS_PER_EPOCH, q, total) <= 5 * q
  {
    var b := 5 * q;
    assert power * BLOCKS_PER_EPOCH * q == power * b;
    assert power * b <= total * b;
    QuotientBounded(power * b, b, total);
  }

  lemma QuotientBounded(a: nat, b: nat, d: nat)
    requires d > 0 && a <= d * b
    ensures a / d <= b
  {
    var f := a / d;
    assert d * f <= a;
    assert f > b ==> d * f >= d * (b + 1);
    assert d * (b + 1) == d * b + d;
  }
}
