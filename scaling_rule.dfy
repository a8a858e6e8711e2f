/**
 * The autoscaling decision: a pure rule that turns the current throughput
 * (events per second), the number of active workers and the scaling
 * configuration into a recommendation. The service code holds the rule
 * twice (ScalingService and WorkerService); here it is written once, as
 * `Decide`, and both services are proved to compute it.
 */
module ScalingRule {

  datatype Action = ScaleUp | ScaleDown | Hold

  /** The cause the recommendation reports; `OverCapacity` carries the
      per-worker capacity that its message quotes. */
  datatype Reason =
    | BelowMinimum
    | OverCapacity(capacity: int)
    | UnderLowerThreshold
    | WithinRange

  datatype ScalingConfig = ScalingConfig(minWorkers: int, maxWorkers: int, workerCapacity: int)

  /** A usable configuration: the per-worker capacity is a positive divisor. */
  type Config = c: ScalingConfig | c.workerCapacity > 0 witness ScalingConfig(1, 10, 1500)

  /** The defaults the services fall back on when nothing is configured. */
  const DefaultConfig: Config := ScalingConfig(1, 10, 1500)

  /** Events per second per worker below which the fleet is shrunk. */
  const LowerRatePerWorker := 1000

  datatype Recommendation = Recommendation(
    currentThroughput: int,
    activeWorkers: int,
    action: Action,
    recommendedWorkers: int,
    reason: Reason)

  function Min(a: int, b: int): int { if a <= b then a else b }

  function Max(a: int, b: int): int { if a >= b then a else b }

  /** Ceiling of x / d: the least q with x <= q * d. */
  function CeilDiv(x: int, d: int): (q: int)
    requires d > 0
    ensures x <= q * d
    ensures (q - 1) * d < x
  {
    var q := (x + d - 1) / d;
    assert (x + d - 1) == q * d + (x + d - 1) % d;
    q
  }

  /** The worker count rule 2 asks for: enough workers to carry the
      throughput at full capacity, but no more than the maximum. */
  function ScaleUpTarget(throughput: int, active: int, cfg: Config): int
  {
    Min(cfg.maxWorkers, active + CeilDiv(throughput - active * cfg.workerCapacity, cfg.workerCapacity))
  }

  /** The branch chain and its post-check, given the value rule 2 computes
      for the new worker count. Only the rule-2 branch uses `scaleUpTarget`. */
  function Evaluate(throughput: int, active: int, cfg: Config, scaleUpTarget: int): Recommendation
  {
    var requiredCapacity := active * cfg.workerCapacity;
    var lowerThreshold := active * LowerRatePerWorker;
    var (action, target, reason) :=
      if active < cfg.minWorkers then
        (ScaleUp, cfg.minWorkers, BelowMinimum)
      else if throughput > requiredCapacity && active < cfg.maxWorkers then
        (ScaleUp, scaleUpTarget, OverCapacity(cfg.workerCapacity))
      else if throughput < lowerThreshold && active > cfg.minWorkers then
        (ScaleDown, Max(cfg.minWorkers, active - 1), UnderLowerThreshold)
      else
        (Hold, active, WithinRange);
    var checked := if target == active && action != ScaleUp then Hold else action;
    Recommendation(throughput, active, checked, target, reason)
  }

  /** The decision, over unbounded integers. The recommendation echoes its
      inputs, and its action always agrees with the direction in which the
      worker count moves: up means more workers, down means exactly one
      fewer, hold means the same number. */
  function Decide(throughput: nat, active: nat, cfg: Config): (r: Recommendation)
    ensures r.currentThroughput == throughput && r.activeWorkers == active
    ensures r.action == ScaleUp ==> active < r.recommendedWorkers
    ensures r.action == ScaleDown ==> r.recommendedWorkers == active - 1 && active > cfg.minWorkers
    ensures r.action == Hold ==> r.recommendedWorkers == active
  {
    CeilDivBounds(throughput - active * cfg.workerCapacity, cfg.workerCapacity);
    Evaluate(throughput, active, cfg, ScaleUpTarget(throughput, active, cfg))
  }

  /** The four rules in priority order, first match wins. */
  lemma DecisionRules(throughput: nat, active: nat, cfg: Config)
    ensures var r := Decide(throughput, active, cfg);
      && (active < cfg.minWorkers ==>
            r.action == ScaleUp && r.recommendedWorkers == cfg.minWorkers && r.reason == BelowMinimum)
      && (cfg.minWorkers <= active < cfg.maxWorkers && throughput > active * cfg.workerCapacity ==>
            r.action == ScaleUp && r.reason == OverCapacity(cfg.workerCapacity)
            && r.recommendedWorkers == Min(cfg.maxWorkers, active + CeilDiv(throughput - active * cfg.workerCapacity, cfg.workerCapacity)))
      && (r.action == ScaleDown <==>
            && cfg.minWorkers < active
            && !(throughput > active * cfg.workerCapacity && active < cfg.maxWorkers)
            && throughput < active * LowerRatePerWorker)
      && (r.action == Hold <==>
            && cfg.minWorkers <= active
            && !(throughput > active * cfg.workerCapacity && active < cfg.maxWorkers)
            && !(throughput < active * LowerRatePerWorker && active > cfg.minWorkers))
  {
  }

  /** Over capacity and below the maximum, the recommendation adds at least
      one worker, stays within the maximum, and is the smallest fleet whose
      capacity covers the throughput unless the maximum cuts it short. */
  lemma OverCapacityTarget(throughput: nat, active: nat, cfg: Config)
    requires cfg.minWorkers <= active < cfg.maxWorkers
    requires throughput > active * cfg.workerCapacity
    ensures var r := Decide(throughput, active, cfg);
      && r.action == ScaleUp
      && active < r.recommendedWorkers <= cfg.maxWorkers
      && (r.recommendedWorkers < cfg.maxWorkers ==>
            && throughput <= r.recommendedWorkers * cfg.workerCapacity
            && (r.recommendedWorkers - 1) * cfg.workerCapacity < throughput)
  {
    var c := cfg.workerCapacity;
    var q := CeilDiv(throughput - active * c, c);
    var r := Decide(throughput, active, cfg);
    if r.recommendedWorkers < cfg.maxWorkers {
      assert r.recommendedWorkers == active + q;
      calc {
        r.recommendedWorkers * c;
        == active * c + q * c;
        >= active * c + (throughput - active * c);
      }
      calc {
        (r.recommendedWorkers - 1) * c;
        == active * c + (q - 1) * c;
        < active * c + (throughput - active * c);
      }
    }
  }

  /** A scale-down never removes more than one worker, and only fires below
      the lower threshold with more workers than the minimum. */
  lemma ScaleDownSingleStep(throughput: nat, active: nat, cfg: Config)
    ensures var r := Decide(throughput, active, cfg);
      r.action == ScaleDown ==>
        && r.recommendedWorkers == active - 1
        && cfg.minWorkers <= r.recommendedWorkers
        && throughput < active * LowerRatePerWorker
  {
  }

  /** With a sensible configuration and a fleet no larger than the maximum,
      the recommendation lies between the minimum and the maximum. */
  lemma RecommendationInRange(throughput: nat, active: nat, cfg: Config)
    requires cfg.minWorkers <= cfg.maxWorkers
    requires active <= cfg.maxWorkers
    ensures var r := Decide(throughput, active, cfg);
      cfg.minWorkers <= r.recommendedWorkers <= cfg.maxWorkers
  {
    if cfg.minWorkers <= active < cfg.maxWorkers && throughput > active * cfg.workerCapacity {
      OverCapacityTarget(throughput, active, cfg);
    }
  }

  /** Above the maximum the fleet is never scaled up and shrinks by at most
      one worker per evaluation: it is held exactly when the throughput
      reaches the lower threshold, and otherwise loses one worker. */
  lemma AboveMaximumShrinksByAtMostOne(throughput: nat, active: nat, cfg: Config)
    requires cfg.minWorkers <= cfg.maxWorkers < active
    ensures var r := Decide(throughput, active, cfg);
      && (r.action == Hold || (r.action == ScaleDown && r.recommendedWorkers == active - 1))
      && (r.action == Hold <==> throughput >= active * LowerRatePerWorker)
  {
  }

  /** At high throughput a fleet above the maximum stays above it: a fleet
      of 12 with a maximum of 10 is held at 12 at 100000 events/s, while at
      0 events/s the same fleet is cut by one, to 11, still above the
      maximum. */
  lemma AboveMaximumIsHeld()
    ensures var r := Decide(100000, 12, DefaultConfig);
      r.action == Hold && r.recommendedWorkers == 12 > DefaultConfig.maxWorkers
    ensures var r := Decide(0, 12, DefaultConfig);
      r.action == ScaleDown && r.recommendedWorkers == 11 > DefaultConfig.maxWorkers
  {
  }

  /** At or above the maximum (with a minimum no larger than the maximum)
      no throughput, however large, produces a scale-up. */
  lemma NoScaleUpAtMaximum(throughput: nat, active: nat, cfg: Config)
    requires cfg.minWorkers <= cfg.maxWorkers <= active
    ensures Decide(throughput, active, cfg).action != ScaleUp
  {
  }

  /** The post-check that forces HOLD when the count does not change never
      alters the action the branch chain chose: no branch other than HOLD
      leaves the count as it is without being a scale-up. */
  lemma PostCheckNeverFires(throughput: nat, active: nat, cfg: Config)
    ensures var r := Decide(throughput, active, cfg);
      && (r.recommendedWorkers == active && r.action != ScaleUp ==> r.action == Hold)
      && (r.action == Hold <==> r.reason == WithinRange)
  {
  }

  /** More throughput never asks for fewer workers. */
  lemma MonotoneInThroughput(t1: nat, t2: nat, active: nat, cfg: Config)
    requires t1 <= t2
    ensures Decide(t1, active, cfg).recommendedWorkers <= Decide(t2, active, cfg).recommendedWorkers
  {
    var c := cfg.workerCapacity;
    var r1, r2 := Decide(t1, active, cfg), Decide(t2, active, cfg);
    if active >= cfg.minWorkers && t1 > active * c && active < cfg.maxWorkers {
      CeilDivMonotone(t1 - active * c, t2 - active * c, c);
    } else if active >= cfg.minWorkers && t2 > active * c && active < cfg.maxWorkers {
      OverCapacityTarget(t2, active, cfg);
    }
  }

  lemma CeilDivMonotone(x: int, y: int, d: int)
    requires d > 0 && x <= y
    ensures CeilDiv(x, d) <= CeilDiv(y, d)
  {
    var qx, qy := CeilDiv(x, d), CeilDiv(y, d);
    assert (qx - 1 - qy) * d < 0;
  }

  /** A positive amount needs at least one and at most that many units. */
  lemma CeilDivBounds(x: int, d: int)
    requires d > 0
    ensures x > 0 ==> 1 <= CeilDiv(x, d) <= x
  {
    var q := CeilDiv(x, d);
    if x > 0 {
      PositiveFactor(q, d);
      NoSmallerThanFactor(q - 1, d);
    }
  }

  lemma PositiveFactor(a: int, b: int)
    requires b > 0 && a * b > 0
    ensures a > 0
  {
  }

  lemma NoSmallerThanFactor(a: int, b: int)
    requires a >= 0 && b >= 1
    ensures a <= a * b
  {
  }

  /** The worked examples for the default configuration (minimum 1,
      maximum 10, capacity 1500 events per second per worker). */
  lemma DefaultConfigScenarios()
    ensures Decide(0, 0, DefaultConfig).action == ScaleUp
    ensures Decide(0, 0, DefaultConfig).recommendedWorkers == 1
    ensures Decide(5000, 3, DefaultConfig).action == ScaleUp
    ensures Decide(5000, 3, DefaultConfig).recommendedWorkers == 4
    ensures Decide(2000, 3, DefaultConfig).action == ScaleDown
    ensures Decide(2000, 3, DefaultConfig).recommendedWorkers == 2
    ensures Decide(4000, 3, DefaultConfig).action == Hold
    ensures Decide(4000, 3, DefaultConfig).recommendedWorkers == 3
    ensures Decide(999999, 10, DefaultConfig).action == Hold
    ensures Decide(999999, 10, DefaultConfig).recommendedWorkers == 10
  {
  }

  // ---------------------------------------------------------------------
  // The rule as the Java code computes it, with 32-bit `int` arithmetic.

  const IntMin := -0x8000_0000
  const IntMax := 0x7fff_ffff

  /** Java's `int` addition: the mathematical sum wrapped into 32 bits. */
  function WrapInt(x: int): (r: int)
    ensures IntMin <= r <= IntMax
    ensures (r - x) % 0x1_0000_0000 == 0
    ensures IntMin <= x <= IntMax ==> r == x
  {
    (x - IntMin) % 0x1_0000_0000 + IntMin
  }

  /** Java's narrowing of a double to `int`, which saturates at the bounds. */
  function NarrowToInt(x: int): (r: int)
    ensures IntMin <= r <= IntMax
    ensures IntMin <= x <= IntMax ==> r == x
    ensures x > IntMax ==> r == IntMax
    ensures x < IntMin ==> r == IntMin
  {
    if x > IntMax then IntMax else if x < IntMin then IntMin else x
  }

  /** Rule 2's target as written: `activeWorkers + (int) Math.ceil(...)`
      saturates the quotient to `int` and then adds in `int`. */
  function JavaScaleUpTarget(throughput: int, active: int, cfg: Config): int
  {
    Min(cfg.maxWorkers,
        WrapInt(active + NarrowToInt(CeilDiv(throughput - active * cfg.workerCapacity, cfg.workerCapacity))))
  }

  function JavaDecide(throughput: nat, active: nat, cfg: Config): (r: Recommendation)
    ensures r.currentThroughput == throughput && r.activeWorkers == active
  {
    Evaluate(throughput, active, cfg, JavaScaleUpTarget(throughput, active, cfg))
  }

  /** With default settings, one worker and a throughput of 3221225473500
      events per second, the Java code recommends scaling UP to a negative
      number of workers; the intended rule recommends the maximum. */
  lemma OverflowCounterexample()
    ensures JavaDecide(3221225473500, 1, DefaultConfig).action == ScaleUp
    ensures JavaDecide(3221225473500, 1, DefaultConfig).recommendedWorkers == IntMin
    ensures Decide(3221225473500, 1, DefaultConfig).recommendedWorkers == 10
  {
    assert CeilDiv(3221225472000, 1500) == 2147483648;
  }

  /** As long as the throughput is at most `IntMax` workers' worth of
      capacity, the Java arithmetic computes exactly the intended rule: the
      rule-2 target `active + ceil(excess / capacity)` is then the ceiling
      of throughput / capacity, which fits in an `int`. */
  lemma JavaDecideAgrees(throughput: nat, active: nat, cfg: Config)
    requires throughput <= IntMax * cfg.workerCapacity
    ensures JavaDecide(throughput, active, cfg) == Decide(throughput, active, cfg)
  {
    var c := cfg.workerCapacity;
    var excess := throughput - active * c;
    if excess > 0 {
      var q := CeilDiv(excess, c);
      CeilDivBounds(excess, c);
      assert (active + q - 1) * c == active * c + (q - 1) * c;
      FactorLess(active + q - 1, IntMax, c);
      assert NarrowToInt(q) == q;
      assert WrapInt(active + q) == active + q;
      assert JavaScaleUpTarget(throughput, active, cfg) == ScaleUpTarget(throughput, active, cfg);
    }
  }

  lemma FactorLess(a: int, b: int, c: int)
    requires c > 0 && a * c < b * c
    ensures a < b
  {
    assert (b - a) * c > 0;
    PositiveFactor(b - a, c);
  }

  /** The bound above is exact at the defaults: one event per second more
      than 2^31 - 1 workers' worth of capacity and the Java code already
      departs from the intended rule. */
  lemma JavaDecideBoundIsTight()
    ensures JavaDecide(IntMax * 1500 + 1, 1, DefaultConfig).recommendedWorkers
         != Decide(IntMax * 1500 + 1, 1, DefaultConfig).recommendedWorkers
  {
    assert CeilDiv(IntMax * 1500 + 1 - 1500, 1500) == IntMax;
  }
}
