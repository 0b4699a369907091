/** The inclusion-fee strategy, with an exact real multiplier. */
module Fees {

  datatype FeeStrategy = FeeStrategy(
    baseInclusionFee: int,
    maxInclusionFee: int,
    bumpMultiplier: real,
    resourceFeeBuffer: int)

  function Power(m: real, k: nat): real {
    if k == 0 then 1.0 else m * Power(m, k - 1)
  }

  /** `math.Ceil`. */
  function Ceil(x: real): (c: int)
    ensures x <= c as real < x + 1.0
  {
    -((-x).Floor)
  }

  /** `int64` of a `uint64`: the upper half of the range wraps to negative. */
  function ToInt64(u: nat): (i: int)
    requires u < 0x1_0000_0000_0000_0000
    ensures u < 0x8000_0000_0000_0000 ==> i == u
    ensures u >= 0x8000_0000_0000_0000 ==> i < 0 && i + 0x1_0000_0000_0000_0000 == u
  {
    if u < 0x8000_0000_0000_0000 then u else u - 0x1_0000_0000_0000_0000
  }

  function Min(a: int, b: int): int {
    if a < b then a else b
  }

  function InclusionFee(f: FeeStrategy, attempt: nat): int {
    if attempt == 0 then f.baseInclusionFee
    else
      var fee := Ceil(f.baseInclusionFee as real * Power(f.bumpMultiplier, attempt));
      if fee > f.maxInclusionFee then f.maxInclusionFee else fee
  }

  /** The fee to bid and whether it was clamped. */
  function SeedInclusionFee(f: FeeStrategy, attempt: nat, percentile: nat): (int, bool)
    requires percentile < 0x1_0000_0000_0000_0000
  {
    var geometric := InclusionFee(f, attempt);
    var network := ToInt64(percentile);
    var fee := if network > geometric then network else geometric;
    if fee > f.maxInclusionFee then (f.maxInclusionFee, true) else (fee, false)
  }

  function BumpInclusionFee(f: FeeStrategy, current: int, percentile: nat): (int, bool)
    requires percentile < 0x1_0000_0000_0000_0000
  {
    var multiplied := Ceil(current as real * f.bumpMultiplier);
    var network := ToInt64(percentile);
    var bumped := if network > multiplied then network else multiplied;
    if bumped > f.maxInclusionFee then (f.maxInclusionFee, true) else (bumped, false)
  }

  /** The total fee at an attempt: inclusion fee, simulated resource fee, flat buffer. */
  function Calculate(f: FeeStrategy, minResourceFee: int, attempt: nat): int {
    InclusionFee(f, attempt) + (minResourceFee + f.resourceFeeBuffer)
  }

  /** Percentiles as the network may report them. */
  ghost predicate Percentiles(ps: seq<nat>) {
    forall i :: 0 <= i < |ps| ==> ps[i] < 0x1_0000_0000_0000_0000
  }

  /** The fee after one bump for each reported percentile, starting from `fee`. */
  function Bumps(f: FeeStrategy, fee: int, ps: seq<nat>): int
    requires Percentiles(ps)
    decreases |ps|
  {
    if ps == [] then fee
    else BumpInclusionFee(f, Bumps(f, fee, ps[..|ps| - 1]), ps[|ps| - 1]).0
  }

  lemma {:induction false} CeilIsLeast(x: real, n: int)
    requires x <= n as real
    ensures Ceil(x) <= n
  {
    assert (Ceil(x) as real) - 1.0 < n as real;
  }

  lemma {:induction false} CeilAbove(x: real, n: int)
    requires x > n as real
    ensures Ceil(x) >= n + 1
  {
  }

  lemma {:induction false} CeilMonotone(x: real, y: real)
    requires x <= y
    ensures Ceil(x) <= Ceil(y)
  {
    CeilIsLeast(x, Ceil(y));
  }

  lemma {:induction false} MultiplyMonotone(x: real, y: real, m: real)
    requires 0.0 <= m && x <= y
    ensures x * m <= y * m
  {
  }

  lemma {:induction false} PowerAtLeastOne(m: real, k: nat)
    requires m >= 1.0
    ensures Power(m, k) >= 1.0
  {
    if k > 0 {
      PowerAtLeastOne(m, k - 1);
      MultiplyMonotone(1.0, Power(m, k - 1), m);
    }
  }

  /** The cap holds at every attempt exactly when the base fee respects it: attempt 0 is not capped. */
  lemma {:induction false} CapHoldsIffBaseBelowMax(f: FeeStrategy)
    ensures (forall k: nat :: InclusionFee(f, k) <= f.maxInclusionFee) <==> f.baseInclusionFee <= f.maxInclusionFee
  {
    assert InclusionFee(f, 0) == f.baseInclusionFee;
  }

  /** The exact geometric fee, before rounding up and clamping. */
  function Exact(f: FeeStrategy, k: nat): real {
    f.baseInclusionFee as real * Power(f.bumpMultiplier, k)
  }

  lemma {:induction false} InclusionFeeIsClampedExact(f: FeeStrategy, k: nat)
    requires f.baseInclusionFee <= f.maxInclusionFee
    ensures InclusionFee(f, k) == Min(Ceil(Exact(f, k)), f.maxInclusionFee)
  {
    if k == 0 {
      assert Exact(f, 0) == f.baseInclusionFee as real;
      CeilIsLeast(Exact(f, 0), f.baseInclusionFee);
    }
  }

  lemma {:induction false} ExactStep(f: FeeStrategy, k: nat)
    ensures Exact(f, k + 1) == Exact(f, k) * f.bumpMultiplier
  {
    var b, m, p := f.baseInclusionFee as real, f.bumpMultiplier, Power(f.bumpMultiplier, k);
    assert b * (m * p) == (b * p) * m;
  }

  lemma {:induction false} ScaleUp(x: real, m: real)
    requires x >= 0.0 && m >= 1.0
    ensures x <= x * m
  {
    assert x * (m - 1.0) >= 0.0;
  }

  lemma {:induction false} ExactNotNegative(f: FeeStrategy, k: nat)
    requires f.bumpMultiplier >= 1.0 && 0 <= f.baseInclusionFee
    ensures Exact(f, k) >= 0.0
  {
    PowerAtLeastOne(f.bumpMultiplier, k);
    ScaleUp(f.baseInclusionFee as real, Power(f.bumpMultiplier, k));
  }

  lemma {:induction false} ExactGrows(f: FeeStrategy, k: nat)
    requires f.bumpMultiplier >= 1.0 && Exact(f, k) >= 0.0
    ensures Exact(f, k) <= Exact(f, k + 1)
  {
    var x := Exact(f, k);
    ScaleUp(x, f.bumpMultiplier);
    ExactStep(f, k);
    assert Exact(f, k + 1) == x * f.bumpMultiplier;
  }

  /** The geometric fee never falls with the attempts. */
  lemma {:induction false} InclusionFeeGrows(f: FeeStrategy, k: nat)
    requires f.bumpMultiplier >= 1.0 && 0 <= f.baseInclusionFee <= f.maxInclusionFee
    ensures 0 <= InclusionFee(f, k) <= InclusionFee(f, k + 1)
  {
    InclusionFeeIsClampedExact(f, k);
    InclusionFeeIsClampedExact(f, k + 1);
    ExactNotNegative(f, k);
    ExactGrows(f, k);
    CeilMonotone(Exact(f, k), Exact(f, k + 1));
    CeilMonotone(0.0, Exact(f, k));
  }

  lemma {:induction false} BumpIsAtLeastMultiplied(f: FeeStrategy, fee: int, percentile: nat)
    requires percentile < 0x1_0000_0000_0000_0000
    ensures Min(Ceil(fee as real * f.bumpMultiplier), f.maxInclusionFee) <= BumpInclusionFee(f, fee, percentile).0
    ensures BumpInclusionFee(f, fee, percentile).0 <= f.maxInclusionFee
  {
  }

  /** A fee that is at least the clamped `exact` stays so when both are multiplied. */
  lemma {:induction false} MultiplyKeepsAhead(exact: real, fee: int, m: real, max: int)
    requires m >= 1.0 && 0 <= fee <= max && Min(Ceil(exact), max) <= fee
    ensures Min(Ceil(exact * m), max) <= Min(Ceil(fee as real * m), max)
  {
    if exact <= fee as real {
      MultiplyMonotone(exact, fee as real, m);
      CeilMonotone(exact * m, fee as real * m);
    } else {
      // clamped already, so `fee` is the maximum
      CeilAbove(exact, fee);
      ScaleUp(fee as real, m);
      CeilMonotone(fee as real, fee as real * m);
    }
  }

  /** One bump of a fee that is at least the clamped `exact` is at least the clamped `next`, its multiple. */
  lemma {:induction false} BumpKeepsAhead(f: FeeStrategy, exact: real, next: real, fee: int, percentile: nat)
    requires f.bumpMultiplier >= 1.0 && percentile < 0x1_0000_0000_0000_0000
    requires next == exact * f.bumpMultiplier
    requires 0 <= fee <= f.maxInclusionFee && Min(Ceil(exact), f.maxInclusionFee) <= fee
    ensures Min(Ceil(next), f.maxInclusionFee) <= BumpInclusionFee(f, fee, percentile).0 <= f.maxInclusionFee
  {
    MultiplyKeepsAhead(exact, fee, f.bumpMultiplier, f.maxInclusionFee);
    BumpIsAtLeastMultiplied(f, fee, percentile);
  }

  /** `fee` is within the maximum and at least the geometric fee of attempt `k`. */
  ghost predicate Ahead(f: FeeStrategy, k: nat, fee: int) {
    0 <= fee && InclusionFee(f, k) <= fee <= f.maxInclusionFee
  }

  lemma {:induction false} BumpStaysAhead(f: FeeStrategy, k: nat, fee: int, percentile: nat)
    requires f.bumpMultiplier >= 1.0 && 0 <= f.baseInclusionFee <= f.maxInclusionFee
    requires percentile < 0x1_0000_0000_0000_0000 && Ahead(f, k, fee)
    ensures Ahead(f, k + 1, BumpInclusionFee(f, fee, percentile).0)
  {
    InclusionFeeIsClampedExact(f, k);
    var exact, next := Exact(f, k), Exact(f, k + 1);
    ExactStep(f, k);
    BumpKeepsAhead(f, exact, next, fee, percentile);
    InclusionFeeIsClampedExact(f, k + 1);
    InclusionFeeGrows(f, k + 1);
  }

  lemma {:induction false} BumpsStayAhead(f: FeeStrategy, ps: seq<nat>)
    requires Percentiles(ps) && Ahead(f, 0, f.baseInclusionFee)
    requires forall k: nat, fee: int, p: nat :: p < 0x1_0000_0000_0000_0000 && Ahead(f, k, fee) ==>
               Ahead(f, k + 1, BumpInclusionFee(f, fee, p).0)
    ensures Ahead(f, |ps|, Bumps(f, f.baseInclusionFee, ps))
    decreases |ps|
  {
    if ps != [] {
      BumpsStayAhead(f, ps[..|ps| - 1]);
    }
  }

  /** Iterated bumps, whatever percentiles are reported, stay between the geometric fee and the maximum. */
  lemma {:induction false} BumpsDominateGeometricGrowth(f: FeeStrategy, ps: seq<nat>)
    requires f.bumpMultiplier >= 1.0 && 0 <= f.baseInclusionFee <= f.maxInclusionFee && Percentiles(ps)
    ensures InclusionFee(f, |ps|) <= Bumps(f, f.baseInclusionFee, ps) <= f.maxInclusionFee
  {
    forall k: nat, fee: int, p: nat | p < 0x1_0000_0000_0000_0000 && Ahead(f, k, fee)
      ensures Ahead(f, k + 1, BumpInclusionFee(f, fee, p).0)
    {
      BumpStaysAhead(f, k, fee, p);
    }
    BumpsStayAhead(f, ps);
  }

  /** With a multiplier above one each bump of a positive fee gains at least a stroop until the maximum. */
  lemma {:induction false} BumpGains(f: FeeStrategy, fee: int, percentile: nat)
    requires f.bumpMultiplier > 1.0 && 0 < fee <= f.maxInclusionFee && percentile < 0x1_0000_0000_0000_0000
    ensures var bumped := BumpInclusionFee(f, fee, percentile).0;
            Min(fee + 1, f.maxInclusionFee) <= bumped <= f.maxInclusionFee
  {
    assert fee as real * f.bumpMultiplier > fee as real by {
      assert fee as real * (f.bumpMultiplier - 1.0) > 0.0;
    }
    CeilAbove(fee as real * f.bumpMultiplier, fee);
  }

  /** So the maximum is reached within as many bumps as there are stroops left to it, and then kept. */
  lemma {:induction false} CapIsReached(f: FeeStrategy, fee: int, ps: seq<nat>)
    requires f.bumpMultiplier > 1.0 && 0 < fee <= f.maxInclusionFee && Percentiles(ps)
    ensures Min(fee + |ps|, f.maxInclusionFee) <= Bumps(f, fee, ps) <= f.maxInclusionFee
    ensures |ps| >= f.maxInclusionFee - fee ==> Bumps(f, fee, ps) == f.maxInclusionFee
    decreases |ps|
  {
    if ps != [] {
      var before := ps[..|ps| - 1];
      CapIsReached(f, fee, before);
      BumpGains(f, Bumps(f, fee, before), ps[|ps| - 1]);
    }
  }

  /** `bid` pays for the multiplied fee and for the reported percentile. */
  ghost predicate Sufficient(f: FeeStrategy, fee: int, percentile: nat, bid: int)
    requires percentile < 0x1_0000_0000_0000_0000
  {
    fee as real * f.bumpMultiplier <= bid as real && ToInt64(percentile) <= bid
  }

  /** A bump bids no more than it must: the least sufficient bid, or the maximum exactly when that is out of reach. */
  lemma {:induction false} BumpIsLeastSufficient(f: FeeStrategy, fee: int, percentile: nat, bid: int)
    requires percentile < 0x1_0000_0000_0000_0000
    ensures var (bumped, clamped) := BumpInclusionFee(f, fee, percentile);
            && (!clamped ==> Sufficient(f, fee, percentile, bumped))
            && (!clamped && Sufficient(f, fee, percentile, bid) ==> bumped <= bid)
            && (clamped ==> bumped == f.maxInclusionFee && (Sufficient(f, fee, percentile, bid) ==> bid > f.maxInclusionFee))
  {
    if Sufficient(f, fee, percentile, bid) {
      CeilIsLeast(fee as real * f.bumpMultiplier, bid);
    }
  }

  /** Across attempts the total fee moves by the bid alone, never falls, and is at most the cap above its fixed part. */
  lemma {:induction false} TotalFeeMovesByTheBid(f: FeeStrategy, minResourceFee: int, k: nat)
    requires f.bumpMultiplier >= 1.0 && 0 <= f.baseInclusionFee <= f.maxInclusionFee
    ensures var rest := minResourceFee + f.resourceFeeBuffer;
            && Calculate(f, minResourceFee, k) <= Calculate(f, minResourceFee, k + 1)
            && rest <= Calculate(f, minResourceFee, k) <= f.maxInclusionFee + rest
            && Calculate(f, minResourceFee, 0) == f.baseInclusionFee + rest
            && Calculate(f, minResourceFee, k + 1) - Calculate(f, minResourceFee, k) ==
               InclusionFee(f, k + 1) - InclusionFee(f, k)
            && Calculate(f, minResourceFee, k) - rest == Min(Ceil(Exact(f, k)), f.maxInclusionFee)
  {
    InclusionFeeGrows(f, k);
    InclusionFeeIsClampedExact(f, k);
  }

  /** A seeded fee is clamped to the maximum, and below it is the larger of baseline and signed percentile. */
  lemma {:induction false} SeedIsBounded(f: FeeStrategy, attempt: nat, percentile: nat)
    requires percentile < 0x1_0000_0000_0000_0000
    ensures var (fee, clamped) := SeedInclusionFee(f, attempt, percentile);
            && fee <= f.maxInclusionFee
            && (clamped <==> InclusionFee(f, attempt) > f.maxInclusionFee || ToInt64(percentile) > f.maxInclusionFee)
            && (clamped ==> fee == f.maxInclusionFee)
            && (!clamped ==> fee >= InclusionFee(f, attempt) && fee >= ToInt64(percentile))
            && (!clamped ==> fee == InclusionFee(f, attempt) || fee == ToInt64(percentile))
            && (percentile >= 0x8000_0000_0000_0000 && InclusionFee(f, attempt) >= 0 ==>
                  fee == Min(InclusionFee(f, attempt), f.maxInclusionFee))
  {
  }
}
