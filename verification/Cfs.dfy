/** The weight table and virtual-time arithmetic of the fair scheduler. */
module Cfs {
  import opened Arith

  const NICE_0_LOAD: nat := 1024
  const U64_MAX: nat := 0xFFFF_FFFF_FFFF_FFFF

  /** Weights of nice -20 to 19. */
  const NICE_WEIGHT: seq<nat> := [
    88761, 71755, 56483, 46273, 36291, 29154, 23254, 18705, 14949, 11916,
    9548, 7620, 6100, 4904, 3906, 3121, 2501, 1991, 1586, 1277,
    1024, 820, 655, 526, 423, 335, 272, 215, 172, 137,
    110, 87, 70, 56, 45, 36, 29, 23, 18, 15]

  function WeightForNice(nice: int): (w: nat)
    ensures 15 <= w <= 88761
    ensures w == NICE_0_LOAD <==> nice == 0
  {
    NICE_WEIGHT[if nice < -20 then 0 else if nice > 19 then 39 else nice + 20]
  }

  function Saturate(n: nat): (r: nat)
    ensures r <= n && r <= U64_MAX
  {
    Min(n, U64_MAX)
  }

  /** The virtual time of `delta` at a weight; a weight of zero counts as one. */
  function CalcDeltaFair(delta: nat, weight: nat): nat {
    if weight == NICE_0_LOAD then delta else Saturate(delta * NICE_0_LOAD) / Max(weight, 1)
  }

  function UpdateVruntime(vruntime: nat, delta: nat, weight: nat): nat {
    Saturate(vruntime + CalcDeltaFair(delta, weight))
  }

  /** A thread that slept is not allowed to fall behind the queue. */
  function PlaceEntity(min: nat, vruntime: nat): (r: nat)
    ensures r >= min && r >= vruntime && (r == min || r == vruntime)
  {
    if vruntime >= min then vruntime else min
  }

  function EffectiveVruntime(vruntime: nat, boost: nat): (r: nat)
    ensures r + boost >= vruntime && (r > 0 ==> r + boost == vruntime)
  {
    if vruntime >= boost then vruntime - boost else 0
  }

  /** A nicer thread weighs strictly less. */
  lemma NicerWeighsLess(a: int, b: int)
    requires -20 <= a < b <= 19
    ensures WeightForNice(a) > WeightForNice(b)
    decreases b - a
  {
    if a + 1 < b {
      NicerWeighsLess(a, b - 1);
    }
    assert NICE_WEIGHT[b + 19] > NICE_WEIGHT[b + 20];
  }

  /** Outside -20 to 19 the weight is that of the nearer end. */
  lemma NiceClamps(nice: int)
    ensures nice <= -20 ==> WeightForNice(nice) == 88761
    ensures nice >= 19 ==> WeightForNice(nice) == 15
  {
  }

  /** One nice level is worth about a quarter: each weight is 20 to 28 percent above the next. */
  lemma NiceStep(nice: int)
    requires -20 <= nice < 19
    ensures 120 * WeightForNice(nice + 1) <= 100 * WeightForNice(nice) <= 128 * WeightForNice(nice + 1)
  {
    assert 120 * NICE_WEIGHT[nice + 21] <= 100 * NICE_WEIGHT[nice + 20] <= 128 * NICE_WEIGHT[nice + 21];
  }

  /** Charge times weight is wall time times 1024, rounded down to a multiple of the weight. */
  lemma ChargeIsProportional(delta: nat, weight: nat)
    requires 0 < weight && delta * NICE_0_LOAD <= U64_MAX
    ensures CalcDeltaFair(delta, weight) * weight <= delta * NICE_0_LOAD
    ensures delta * NICE_0_LOAD < CalcDeltaFair(delta, weight) * weight + weight
  {
  }

  lemma QuotientShrinks(n: nat, a: nat, b: nat)
    requires 0 < b <= a
    ensures n / a <= n / b
  {
    QuotientsCompare(n, a, b, n / a, n % a, n / b, n % b);
  }

  lemma QuotientsCompare(n: nat, a: nat, b: nat, q: nat, r: nat, p: nat, s: nat)
    requires 0 < b <= a && n == a * q + r && n == b * p + s && s < b
    ensures q <= p
  {
    Distribute(q, a, b);
    Distribute(b, q, p);
    if q > p {
      MulAtLeast(b, q - p);
    }
  }

  /** For the same wall time a nicer thread is charged at least as much virtual time. */
  lemma NicerPaysMore(delta: nat, a: int, b: int)
    requires -20 <= a < b <= 19 && delta * NICE_0_LOAD <= U64_MAX
    ensures CalcDeltaFair(delta, WeightForNice(a)) <= CalcDeltaFair(delta, WeightForNice(b))
  {
    NicerWeighsLess(a, b);
    assert WeightForNice(b) >= 15;
    hide WeightForNice;
    QuotientShrinks(delta * NICE_0_LOAD, WeightForNice(a), WeightForNice(b));
  }

  /** Where a boosted thread's key lands: at or above min_vruntime exactly in these cases. */
  lemma BoostedKeyExactlyWhen(min: nat, vruntime: nat, boost: nat)
    ensures EffectiveVruntime(PlaceEntity(min, EffectiveVruntime(vruntime, boost)), boost) >= min
       <==> boost == 0 || min == 0 || vruntime >= min + 2 * boost
  {
  }

  /** A boosted thread that lands below min_vruntime. */
  lemma BoostBreaksTheWindow()
    ensures EffectiveVruntime(PlaceEntity(100, EffectiveVruntime(100, 30)), 30) == 70
  {
  }
}
