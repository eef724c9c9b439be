/**
 * The statistics of the Phase 1 experiment (src/run_phase1.py): the Wilson
 * score interval of each arm's accuracy and the summary computed by
 * `save_results`. Numbers are exact reals; the square root the source takes
 * with `math.sqrt` is supplied by the caller as `root`, constrained to be the
 * non-negative square root of the radicand.
 */
module Phase1Stats {

  /** The normal quantile, fixed at the 95% value whatever confidence is asked for. */
  const Z: real := 1.96

  function Proportion(successes: nat, n: nat): real
    requires n > 0
  {
    successes as real / n as real
  }

  /** What `math.sqrt` is applied to: `p (1 - p) / n + z^2 / (4 n^2)`. */
  function Radicand(successes: nat, n: nat): real
    requires n > 0
  {
    var p := Proportion(successes, n);
    p * (1.0 - p) / n as real + Z * Z / (4.0 * (n * n) as real)
  }

  function Denominator(n: nat): real
    requires n > 0
  {
    1.0 + Z * Z / n as real
  }

  function Center(successes: nat, n: nat): real
    requires n > 0
  {
    var p := Proportion(successes, n);
    (p + Z * Z / (2.0 * n as real)) / Denominator(n)
  }

  function Margin(n: nat, root: real): real
    requires n > 0
  {
    Z * root / Denominator(n)
  }

  function Max(a: real, b: real): real { if a >= b then a else b }

  function Min(a: real, b: real): real { if a <= b then a else b }

  /** `root` is what `math.sqrt` returns for the radicand (it raises when that is negative). */
  predicate IsRoot(successes: nat, n: nat, root: real)
  {
    n > 0 ==> root >= 0.0 && root * root == Radicand(successes, n)
  }

  /**
   * `_compute_wilson_ci`: `(0.0, 0.0)` for an empty arm; otherwise the
   * Wilson interval clamped to `[0, 1]`, which contains the observed
   * proportion whenever the successes do not exceed the trials.
   */
  function WilsonCi(successes: nat, n: nat, confidence: real, root: real): (ci: (real, real))
    requires IsRoot(successes, n, root)
    ensures n == 0 ==> ci == (0.0, 0.0)
    ensures 0.0 <= ci.0 && ci.1 <= 1.0
    ensures 0 < n && successes <= n ==> ci.0 <= Proportion(successes, n) <= ci.1
    ensures successes <= n ==> ci.0 <= ci.1
  {
    if n == 0 then (0.0, 0.0)
    else
      var center := Center(successes, n);
      var margin := Margin(n, root);
      WilsonContainsIfBounded(successes, n, root);
      (Max(0.0, center - margin), Min(1.0, center + margin))
  }

  /** The `confidence` argument has no effect: `z` is always 1.96. */
  lemma WilsonIgnoresConfidence(successes: nat, n: nat, c1: real, c2: real, root: real)
    requires IsRoot(successes, n, root)
    ensures WilsonCi(successes, n, c1, root) == WilsonCi(successes, n, c2, root)
  {
  }

  // ---------------------------------------------------------------------------
  // Why the interval contains the proportion: with `q = z^2 / n`,
  // `(centre - p) (1 + q) = q (1/2 - p)` and `(margin (1 + q))^2 = q (p (1 - p) + q / 4)`,
  // and the second exceeds the square of the first by `q (1 + q) p (1 - p) >= 0`.

  lemma ProductPositive(x: real, y: real)
    ensures x > 0.0 && y > 0.0 ==> x * y > 0.0
  {
  }

  lemma ProductNonNegative(x: real, y: real)
    ensures x >= 0.0 && y >= 0.0 ==> x * y >= 0.0
  {
  }

  lemma DivCancel(x: real, d: real)
    ensures d != 0.0 ==> (x / d) * d == x
  {
  }

  lemma {:induction false} SquareBound(a: real, m: real)
    requires m >= 0.0 && a * a <= m * m
    ensures -m <= a <= m
  {
    ProductPositive(a - m, a + m);
    ProductPositive(-a - m, m - a);
  }

  lemma DivideOut(a: real, b: real, d: real)
    requires d > 0.0 && a * d <= b * d
    ensures a <= b
  {
    ProductPositive(a - b, d);
  }

  lemma {:induction false} HalfAndQuarter(nr: real)
    requires nr > 0.0
    ensures Z * Z / (2.0 * nr) == (Z * Z / nr) / 2.0
    ensures Z * Z / (4.0 * (nr * nr)) * nr == (Z * Z / nr) / 4.0
  {
  }

  /** `a == b`, kept as one fact so that callers need not redo the arithmetic. */
  predicate Same(a: real, b: real)
  {
    a == b
  }

  predicate SquareAtMost(a: real, w: real)
  {
    a * a <= w
  }

  predicate SquareIs(a: real, w: real)
  {
    a * a == w
  }

  lemma {:induction false} WilsonInequality(p: real, q: real, rr: real)
    requires 0.0 <= p <= 1.0 && q > 0.0 && Same(rr, p * (1.0 - p) + q / 4.0)
    ensures SquareAtMost(q * (0.5 - p), q * rr)
  {
    assert q * (p * (1.0 - p) + q / 4.0) - (q * (0.5 - p)) * (q * (0.5 - p)) == q * (1.0 + q) * (p * (1.0 - p));
    ProductNonNegative(p, 1.0 - p);
    ProductNonNegative(q * (1.0 + q), p * (1.0 - p));
  }

  lemma {:induction false} CenterOffset(c: real, p: real, q: real)
    requires Same(c * (1.0 + q), p + q / 2.0)
    ensures Same((c - p) * (1.0 + q), q * (0.5 - p))
  {
  }

  /** `|t| <= m` follows from `(t s)^2 <= (m s)^2` for a positive scale `s`. */
  lemma {:induction false} ScaledSquares(t: real, m: real, s: real, u: real, zr: real, w: real)
    requires s > 0.0 && m >= 0.0
    requires Same(t * s, u) && Same(m * s, zr) && SquareAtMost(u, w) && SquareIs(zr, w)
    ensures -m <= t <= m
  {
    ProductPositive(m, s);
    SquareBound(u, zr);
    DivideOut(t, m, s);
    DivideOut(-m, t, s);
  }

  /** The facts about centre `c`, margin `m`, `zr = z root` and `rr = root^2 n` the containment proof uses. */
  predicate WilsonRelations(p: real, q: real, c: real, m: real, zr: real, rr: real)
  {
    && 0.0 <= p <= 1.0 && q > 0.0 && m >= 0.0
    && Same(c * (1.0 + q), p + q / 2.0)
    && Same(m * (1.0 + q), zr) && SquareIs(zr, q * rr) && Same(rr, p * (1.0 - p) + q / 4.0)
  }

  lemma {:induction false} WilsonSteps(p: real, q: real, c: real, m: real, zr: real, rr: real)
    requires WilsonRelations(p, q, c, m, zr, rr)
    ensures Same((c - p) * (1.0 + q), q * (0.5 - p)) && SquareAtMost(q * (0.5 - p), q * rr)
  {
    CenterOffset(c, p, q);
    WilsonInequality(p, q, rr);
  }

  lemma {:induction false} WilsonScaled(p: real, q: real, c: real, m: real, zr: real, rr: real)
    requires q > 0.0 && m >= 0.0
    requires Same((c - p) * (1.0 + q), q * (0.5 - p)) && Same(m * (1.0 + q), zr)
    requires SquareAtMost(q * (0.5 - p), q * rr) && SquareIs(zr, q * rr)
    ensures c - m <= p <= c + m
  {
    ScaledSquares(c - p, m, 1.0 + q, q * (0.5 - p), zr, q * rr);
  }

  lemma {:induction false} WilsonAlgebra(p: real, q: real, c: real, m: real, zr: real, rr: real)
    requires WilsonRelations(p, q, c, m, zr, rr)
    ensures c - m <= p <= c + m
  {
    WilsonSteps(p, q, c, m, zr, rr);
    WilsonScaled(p, q, c, m, zr, rr);
  }

  lemma {:induction false} RadicandScaled(p: real, nr: real, rs: real)
    requires nr > 0.0 && rs == p * (1.0 - p) / nr + Z * Z / (4.0 * (nr * nr))
    ensures rs * nr == p * (1.0 - p) + (Z * Z / nr) / 4.0
  {
    assert rs * nr == p * (1.0 - p) / nr * nr + Z * Z / (4.0 * (nr * nr)) * nr;
    DivCancel(p * (1.0 - p), nr);
    HalfAndQuarter(nr);
  }

  lemma {:induction false} MarginSquared(nr: real, root: real, rr: real)
    requires nr > 0.0 && rr == root * root * nr
    ensures (Z * root) * (Z * root) == (Z * Z / nr) * rr
  {
    DivCancel(Z * Z, nr);
    assert (Z * root) * (Z * root) == (Z * Z) * (root * root);
  }

  lemma {:induction false} ProportionInUnit(successes: nat, n: nat)
    requires 0 < n && successes <= n
    ensures 0.0 <= Proportion(successes, n) <= 1.0
  {
    DivCancel(successes as real, n as real);
  }

  lemma {:induction false} CenterScaled(successes: nat, n: nat)
    requires 0 < n
    ensures Center(successes, n) * (1.0 + Z * Z / n as real) == Proportion(successes, n) + (Z * Z / n as real) / 2.0
  {
    HalfAndQuarter(n as real);
    DivCancel(Proportion(successes, n) + Z * Z / (2.0 * n as real), Denominator(n));
  }

  lemma {:induction false} MarginScaled(n: nat, root: real)
    requires 0 < n && root >= 0.0
    ensures Margin(n, root) * (1.0 + Z * Z / n as real) == Z * root
    ensures Margin(n, root) >= 0.0
  {
    DivCancel(Z * root, Denominator(n));
  }

  lemma {:induction false} RadicandSquare(successes: nat, n: nat, root: real)
    requires 0 < n && root * root == Radicand(successes, n)
    ensures root * root * n as real == Proportion(successes, n) * (1.0 - Proportion(successes, n)) + (Z * Z / n as real) / 4.0
    ensures (Z * root) * (Z * root) == (Z * Z / n as real) * (root * root * n as real)
  {
    var nr := n as real;
    assert (n * n) as real == nr * nr;
    RadicandScaled(Proportion(successes, n), nr, root * root);
    MarginSquared(nr, root, root * root * nr);
  }

  lemma {:induction false} WilsonRelationsHold(successes: nat, n: nat, root: real)
    requires 0 < n && successes <= n
    requires root >= 0.0 && root * root == Radicand(successes, n)
    ensures WilsonRelations(Proportion(successes, n), Z * Z / n as real, Center(successes, n),
                            Margin(n, root), Z * root, root * root * n as real)
  {
    ProportionInUnit(successes, n);
    CenterScaled(successes, n);
    MarginScaled(n, root);
    RadicandSquare(successes, n, root);
  }

  /** The unclamped Wilson interval contains the observed proportion. */
  lemma {:induction false} WilsonContains(successes: nat, n: nat, root: real)
    requires 0 < n && successes <= n
    requires root >= 0.0 && root * root == Radicand(successes, n)
    ensures Center(successes, n) - Margin(n, root) <= Proportion(successes, n) <= Center(successes, n) + Margin(n, root)
  {
    WilsonRelationsHold(successes, n, root);
    WilsonAlgebra(Proportion(successes, n), Z * Z / n as real, Center(successes, n),
                  Margin(n, root), Z * root, root * root * n as real);
  }

  lemma {:induction false} WilsonContainsIfBounded(successes: nat, n: nat, root: real)
    requires 0 < n && root >= 0.0 && root * root == Radicand(successes, n)
    ensures successes <= n ==> Center(successes, n) - Margin(n, root) <= Proportion(successes, n) <= Center(successes, n) + Margin(n, root)
    ensures successes <= n ==> 0.0 <= Proportion(successes, n) <= 1.0
  {
    if successes <= n {
      WilsonContains(successes, n, root);
      ProportionInUnit(successes, n);
    }
  }

  // ---------------------------------------------------------------------------
  // `save_results`

  /** `sum(1 for r in arm if r['evaluation']['success'])`, over each result's success flag. */
  function Successes(arm: seq<bool>): (k: nat)
    ensures k <= |arm|
    ensures k == 0 <==> forall i :: 0 <= i < |arm| ==> !arm[i]
    ensures k == |arm| <==> forall i :: 0 <= i < |arm| ==> arm[i]
  {
    if |arm| == 0 then 0
    else
      var rest := Successes(arm[1..]);
      assert forall i :: 1 <= i < |arm| ==> arm[i] == arm[1..][i - 1];
      (if arm[0] then 1 else 0) + rest
  }

  /** The share of successes, 0 for an empty arm. */
  function Accuracy(arm: seq<bool>): (a: real)
    ensures 0.0 <= a <= 1.0
    ensures |arm| > 0 ==> a == Proportion(Successes(arm), |arm|)
    ensures |arm| == 0 ==> a == 0.0
  {
    if |arm| > 0 then
      ProportionInUnit(Successes(arm), |arm|);
      Successes(arm) as real / |arm| as real
    else 0.0
  }

  datatype Summary = Summary(
    baselineAccuracy: real,
    baselineCiLower: real,
    baselineCiUpper: real,
    withMemoryAccuracy: real,
    withMemoryCiLower: real,
    withMemoryCiUpper: real,
    absoluteImprovement: real,
    relativeImprovement: real,
    confidenceIntervalsOverlap: bool,
    statisticallySignificant: bool,
    memoryBankSize: nat,
    problemsTested: nat,
    randomSeed: int)

  /** An arm's interval, which holds the arm's accuracy. */
  function ArmInterval(arm: seq<bool>, root: real): (ci: (real, real))
    requires IsRoot(Successes(arm), |arm|, root)
    ensures 0.0 <= ci.0 <= Accuracy(arm) <= ci.1 <= 1.0
  {
    WilsonCi(Successes(arm), |arm|, 0.95, root)
  }

  /** `ratio * base == part`: the ratio of `part` to `base`. */
  predicate Scales(ratio: real, base: real, part: real)
  {
    ratio * base == part
  }

  /** A proportion times its number of trials is its number of successes. */
  lemma ProportionScaled(successes: nat, n: nat)
    requires n > 0
    ensures Scales(Proportion(successes, n), n as real, successes as real)
  {
    DivCancel(successes as real, n as real);
  }

  /** `(memory_acc - baseline_acc) / baseline_acc if baseline_acc > 0 else 0`. */
  function RelativeImprovement(baselineAcc: real, memoryAcc: real): (r: real)
    ensures baselineAcc <= 0.0 ==> r == 0.0
    ensures baselineAcc > 0.0 ==> Scales(r, baselineAcc, memoryAcc - baselineAcc)
  {
    DivCancel(memoryAcc - baselineAcc, baselineAcc);
    if baselineAcc > 0.0 then (memoryAcc - baselineAcc) / baselineAcc else 0.0
  }

  /**
   * The summary of both arms. Each accuracy lies in its arm's interval, so
   * an improvement called significant is an improvement in accuracy.
   */
  function Summarize(baseline: seq<bool>, withMemory: seq<bool>, bankSize: nat, seed: int,
                     baselineRoot: real, memoryRoot: real): (s: Summary)
    requires IsRoot(Successes(baseline), |baseline|, baselineRoot)
    requires IsRoot(Successes(withMemory), |withMemory|, memoryRoot)
    ensures s.baselineAccuracy == Accuracy(baseline) && s.withMemoryAccuracy == Accuracy(withMemory)
    ensures 0.0 <= s.baselineCiLower <= s.baselineAccuracy <= s.baselineCiUpper <= 1.0
    ensures 0.0 <= s.withMemoryCiLower <= s.withMemoryAccuracy <= s.withMemoryCiUpper <= 1.0
    ensures s.absoluteImprovement == s.withMemoryAccuracy - s.baselineAccuracy
    ensures s.baselineAccuracy == 0.0 ==> s.relativeImprovement == 0.0
    ensures s.baselineAccuracy > 0.0 ==> Scales(s.relativeImprovement, s.baselineAccuracy, s.absoluteImprovement)
    ensures s.statisticallySignificant <==> s.withMemoryCiLower > s.baselineCiUpper
    ensures s.confidenceIntervalsOverlap <==> !s.statisticallySignificant
    ensures s.statisticallySignificant ==> s.withMemoryAccuracy > s.baselineAccuracy
    ensures s.memoryBankSize == bankSize && s.problemsTested == |baseline| && s.randomSeed == seed
  {
    var baselineAcc := Accuracy(baseline);
    var memoryAcc := Accuracy(withMemory);
    var baselineCi := ArmInterval(baseline, baselineRoot);
    var memoryCi := ArmInterval(withMemory, memoryRoot);
    Summary(
      baselineAcc, baselineCi.0, baselineCi.1,
      memoryAcc, memoryCi.0, memoryCi.1,
      memoryAcc - baselineAcc, RelativeImprovement(baselineAcc, memoryAcc),
      !(memoryCi.0 > baselineCi.1), memoryCi.0 > baselineCi.1,
      bankSize, |baseline|, seed)
  }
}
