/**
 * The computations of the results analysis (src/analyze_results.py): the
 * running accuracy of each arm, the problems that improved or regressed
 * with memory, the net change, and the half-widths of the error bars.
 * Plotting and printing are outside the model.
 */
module Analysis {
  import opened Text
  import opened Phase1Stats

  /** What the analysis reads from one entry of an arm's results. */
  datatype RunRecord = RunRecord(
    problemId: string,
    question: string,
    answer: string,
    success: bool,
    expected: string,
    retrievedMemories: seq<string>)

  /** One listed improvement or regression. */
  datatype Change = Change(
    problemId: string,
    question: string,
    baselineAnswer: string,
    memoryAnswer: string,
    expected: string,
    retrievedMemories: seq<string>)

  datatype Kind = Improvement | Regression

  /** `[int(r['evaluation']['success']) for r in arm]`, as flags. */
  function Flags(arm: seq<RunRecord>): (fs: seq<bool>)
    ensures |fs| == |arm| && forall i :: 0 <= i < |arm| ==> fs[i] == arm[i].success
  {
    seq(|arm|, i requires 0 <= i < |arm| => arm[i].success)
  }

  lemma {:induction false} SuccessesAppend(xs: seq<bool>, x: bool)
    ensures Successes(xs + [x]) == Successes(xs) + (if x then 1 else 0)
  {
    if |xs| > 0 {
      assert (xs + [x])[1..] == xs[1..] + [x];
      SuccessesAppend(xs[1..], x);
    }
  }

  /**
   * The running accuracy: entry `i` is the share of successes among the
   * first `i + 1` results, so the list has one entry per result, each in
   * `[0, 1]`.
   */
  function Cumulative(outcomes: seq<bool>): (c: seq<real>)
    ensures |c| == |outcomes|
    ensures forall i :: 0 <= i < |c| ==> 0.0 <= c[i] <= 1.0
    ensures forall i :: 0 <= i < |c| ==> c[i] == Accuracy(outcomes[..i + 1])
  {
    seq(|outcomes|, i requires 0 <= i < |outcomes| => Accuracy(outcomes[..i + 1]))
  }

  /** The last running accuracy is the arm's overall accuracy. */
  lemma CumulativeEndsAtAccuracy(outcomes: seq<bool>)
    requires |outcomes| > 0
    ensures Cumulative(outcomes)[|outcomes| - 1] == Accuracy(outcomes)
  {
    assert outcomes[..|outcomes|] == outcomes;
  }

  /** An accuracy times its number of results is its number of successes. */
  lemma AccuracyScaled(xs: seq<bool>)
    requires |xs| > 0
    ensures Scales(Accuracy(xs), |xs| as real, Successes(xs) as real)
  {
    ProportionScaled(Successes(xs), |xs|);
  }

  /**
   * Each running accuracy, scaled by the number of results it covers, is
   * the previous one scaled likewise plus the new outcome.
   */
  lemma {:induction false} CumulativeStep(outcomes: seq<bool>, i: nat)
    requires i + 1 < |outcomes|
    ensures Scales(Cumulative(outcomes)[i + 1], (i + 2) as real,
      Successes(outcomes[..i + 1]) as real + (if outcomes[i + 1] then 1.0 else 0.0))
    ensures Scales(Cumulative(outcomes)[i], (i + 1) as real, Successes(outcomes[..i + 1]) as real)
  {
    assert outcomes[..i + 2] == outcomes[..i + 1] + [outcomes[i + 1]];
    SuccessesAppend(outcomes[..i + 1], outcomes[i + 1]);
    AccuracyScaled(outcomes[..i + 2]);
    AccuracyScaled(outcomes[..i + 1]);
  }

  /** Both runs saw the same problem, and it flipped in the direction `kind` names. */
  predicate Classified(kind: Kind, b: RunRecord, m: RunRecord)
  {
    b.problemId == m.problemId
    && match kind
       case Improvement => !b.success && m.success
       case Regression => b.success && !m.success
  }

  /** The record listed for a flipped pair; the question is cut to its first 100 characters. */
  function ChangeOf(b: RunRecord, m: RunRecord): Change
  {
    Change(b.problemId, Take(b.question, 100), b.answer, m.answer, b.expected, m.retrievedMemories)
  }

  /**
   * The positions, among the first `n` zipped pairs, whose pair is
   * classified as `kind`: all of them, each once, in increasing order.
   */
  function Selected(bs: seq<RunRecord>, ms: seq<RunRecord>, kind: Kind, n: nat): (idx: seq<nat>)
    requires n <= |bs| && n <= |ms|
    ensures forall k :: 0 <= k < |idx| ==> idx[k] < n && Classified(kind, bs[idx[k]], ms[idx[k]])
    ensures forall i :: 0 <= i < n && Classified(kind, bs[i], ms[i]) ==> i in idx
    ensures forall k, l :: 0 <= k < l < |idx| ==> idx[k] < idx[l]
  {
    if n == 0 then []
    else
      var earlier := Selected(bs, ms, kind, n - 1);
      if Classified(kind, bs[n - 1], ms[n - 1]) then earlier + [n - 1] else earlier
  }

  function Changes(bs: seq<RunRecord>, ms: seq<RunRecord>, kind: Kind, n: nat): seq<Change>
    requires n <= |bs| && n <= |ms|
  {
    var idx := Selected(bs, ms, kind, n);
    seq(|idx|, k requires 0 <= k < |idx| => ChangeOf(bs[idx[k]], ms[idx[k]]))
  }

  /** `len(zip(baseline, with_memory))` */
  function PairCount(bs: seq<RunRecord>, ms: seq<RunRecord>): (n: nat)
    ensures n <= |bs| && n <= |ms| && (n == |bs| || n == |ms|)
  {
    if |bs| <= |ms| then |bs| else |ms|
  }

  /**
   * The loops that build `improvements` and `regressions`: walk the zipped
   * pairs and append a record for each pair with the same problem whose
   * outcome flipped in the direction `kind` names.
   */
  method CollectChanges(baseline: seq<RunRecord>, withMemory: seq<RunRecord>, kind: Kind)
      returns (changes: seq<Change>)
    ensures changes == Changes(baseline, withMemory, kind, PairCount(baseline, withMemory))
  {
    changes := [];
    var n := PairCount(baseline, withMemory);
    for i := 0 to n
      invariant changes == Changes(baseline, withMemory, kind, i)
    {
      var b := baseline[i];
      var m := withMemory[i];
      if b.problemId == m.problemId {
        var flipped := match kind
          case Improvement => !b.success && m.success
          case Regression => b.success && !m.success;
        if flipped {
          changes := changes + [ChangeOf(b, m)];
        }
      }
    }
  }

  /** No pair is both an improvement and a regression. */
  lemma {:induction false} ChangesDisjoint(bs: seq<RunRecord>, ms: seq<RunRecord>, n: nat)
    requires n <= |bs| && n <= |ms|
    ensures forall i :: i in Selected(bs, ms, Improvement, n) ==> i !in Selected(bs, ms, Regression, n)
    ensures |Selected(bs, ms, Improvement, n)| + |Selected(bs, ms, Regression, n)| <= n
  {
    if n > 0 {
      ChangesDisjoint(bs, ms, n - 1);
    }
  }

  /** Pairs whose problems differ are in neither list. */
  lemma MismatchedPairsIgnored(bs: seq<RunRecord>, ms: seq<RunRecord>, kind: Kind, n: nat, i: nat)
    requires n <= |bs| && n <= |ms| && i < n && bs[i].problemId != ms[i].problemId
    ensures i !in Selected(bs, ms, kind, n)
  {
  }

  /** `len(improvements) - len(regressions)` */
  function NetChange(improvements: seq<Change>, regressions: seq<Change>): int
  {
    |improvements| - |regressions|
  }

  /** The selection up to `n` extends the one up to `n - 1` by at most the last pair. */
  lemma SelectedStep(bs: seq<RunRecord>, ms: seq<RunRecord>, kind: Kind, n: nat)
    requires 0 < n <= |bs| && n <= |ms|
    ensures |Selected(bs, ms, kind, n)|
      == |Selected(bs, ms, kind, n - 1)| + (if Classified(kind, bs[n - 1], ms[n - 1]) then 1 else 0)
  {
  }

  lemma FlagsStep(xs: seq<RunRecord>, n: nat)
    requires 0 < n <= |xs|
    ensures Successes(Flags(xs[..n])) == Successes(Flags(xs[..n - 1])) + (if xs[n - 1].success then 1 else 0)
  {
    assert Flags(xs[..n]) == Flags(xs[..n - 1]) + [xs[n - 1].success];
    SuccessesAppend(Flags(xs[..n - 1]), xs[n - 1].success);
  }

  /** One change per selected position. */
  lemma ChangesCount(bs: seq<RunRecord>, ms: seq<RunRecord>, kind: Kind, n: nat)
    requires n <= |bs| && n <= |ms|
    ensures |Changes(bs, ms, kind, n)| == |Selected(bs, ms, kind, n)|
  {
  }

  /** With matching problems, each pair adds to the difference exactly what its two outcomes add. */
  lemma {:induction false} SelectedDifference(bs: seq<RunRecord>, ms: seq<RunRecord>, n: nat)
    requires n <= |bs| && n <= |ms|
    requires forall i :: 0 <= i < n ==> bs[i].problemId == ms[i].problemId
    ensures |Selected(bs, ms, Improvement, n)| - |Selected(bs, ms, Regression, n)|
      == Successes(Flags(ms[..n])) - Successes(Flags(bs[..n]))
  {
    if n > 0 {
      SelectedDifference(bs, ms, n - 1);
      SelectedStep(bs, ms, Improvement, n);
      SelectedStep(bs, ms, Regression, n);
      FlagsStep(ms, n);
      FlagsStep(bs, n);
    }
  }

  /**
   * When the two runs list the same problems in the same order, the net
   * change is the memory run's successes minus the baseline's.
   */
  lemma {:induction false} NetChangeIsSuccessDifference(bs: seq<RunRecord>, ms: seq<RunRecord>, n: nat)
    requires n <= |bs| && n <= |ms|
    requires forall i :: 0 <= i < n ==> bs[i].problemId == ms[i].problemId
    ensures NetChange(Changes(bs, ms, Improvement, n), Changes(bs, ms, Regression, n))
      == Successes(Flags(ms[..n])) - Successes(Flags(bs[..n]))
  {
    ChangesCount(bs, ms, Improvement, n);
    ChangesCount(bs, ms, Regression, n);
    SelectedDifference(bs, ms, n);
  }

  /** `(upper - lower) / 2`: the error bar of that half-width spans the interval from its midpoint. */
  function HalfWidth(lower: real, upper: real): (h: real)
    ensures lower + h == upper - h
    ensures lower <= upper ==> h >= 0.0
  {
    (upper - lower) / 2.0
  }

  /** The half-widths drawn from a summary are between 0 and 1/2. */
  lemma SummaryHalfWidths(baseline: seq<bool>, withMemory: seq<bool>, bankSize: nat, seed: int,
                          baselineRoot: real, memoryRoot: real)
    requires IsRoot(Successes(baseline), |baseline|, baselineRoot)
    requires IsRoot(Successes(withMemory), |withMemory|, memoryRoot)
    ensures var s := Summarize(baseline, withMemory, bankSize, seed, baselineRoot, memoryRoot);
      0.0 <= HalfWidth(s.baselineCiLower, s.baselineCiUpper) <= 0.5
      && 0.0 <= HalfWidth(s.withMemoryCiLower, s.withMemoryCiUpper) <= 0.5
  {
  }
}
