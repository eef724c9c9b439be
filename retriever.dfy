/**
 * Memory retrieval (src/retrieval/retriever.py): the answer-leak guard, the
 * selection of the top-k memories from precomputed similarity scores, and the
 * rendering of the selection into a prompt block.
 *
 * The embedding model is external: the similarity of each memory to the query
 * is given as `scores`, and `numpy.argsort` of those scores as `ranking`.
 */
module Retriever {
  import opened Wrappers
  import opened Text
  import opened Memory

  // ---------------------------------------------------------------------------
  // `_has_answer_leak`

  /** The words that mark a nearby number as a stated result. */
  const ResultKeywords: seq<string> :=
    ["answer", "result", "total", "equals", "final", "=", "is", "solution", "outcome"]

  /** Regex `\b` at position `i`: a word character on exactly one side. */
  predicate Boundary(s: string, i: nat)
    requires i <= |s|
  {
    (i > 0 && IsWordChar(s[i - 1])) != (i < |s| && IsWordChar(s[i]))
  }

  /**
   * Where a match of `\b\d+\.?\d*\b` starting at `i` ends. Worked out from the
   * regex's backtracking: after the digit run, a `.` followed by digits is
   * taken when a boundary follows them; otherwise the match stops just after
   * the `.` (a boundary, since a digit follows it) or just before it.
   */
  function NumberMatchAt(s: string, i: nat): (e: Option<nat>)
    requires i <= |s|
    ensures e.Some? ==> i < e.value <= |s| && IsDigit(s[i])
    ensures e.Some? ==> Boundary(s, i) && Boundary(s, e.value)
    ensures e.Some? ==> forall k :: i <= k < e.value ==> IsDigit(s[k]) || s[k] == '.'
  {
    if i < |s| && IsDigit(s[i]) && Boundary(s, i) then
      var j := DigitRunEnd(s, i);
      if j < |s| && s[j] == '.' then
        var m := DigitRunEnd(s, j + 1);
        if Boundary(s, m) then Some(m)
        else if m > j + 1 then Some(j + 1)
        else Some(j)
      else if Boundary(s, j) then Some(j)
      else None
    else None
  }

  /** `re.findall(r'\b\d+\.?\d*\b', s[p:])`. */
  function NumberTokensFrom(s: string, p: nat): (tokens: seq<string>)
    requires p <= |s|
    ensures forall k :: 0 <= k < |tokens| ==> |tokens[k]| > 0 && IsDigit(tokens[k][0])
    ensures forall k :: 0 <= k < |tokens| ==> forall i :: 0 <= i < |tokens[k]| ==> IsDigit(tokens[k][i]) || tokens[k][i] == '.'
    ensures forall k :: 0 <= k < |tokens| ==> Contains(s, tokens[k])
    decreases |s| - p
  {
    if p == |s| then []
    else match NumberMatchAt(s, p)
      case Some(e) =>
        assert OccursAt(s, s[p..e], p);
        [s[p..e]] + NumberTokensFrom(s, e)
      case None => NumberTokensFrom(s, p + 1)
  }

  function NumberTokens(s: string): seq<string>
  {
    NumberTokensFrom(s, 0)
  }

  /** `num` occurs at `p` with a word boundary on both sides (`\b` + re.escape(num) + `\b`). */
  predicate BoundedAt(text: string, num: string, p: nat)
  {
    OccursAt(text, num, p) && Boundary(text, p) && Boundary(text, p + |num|)
  }

  /** `[m.start() for m in re.finditer(r'\b' + re.escape(num) + r'\b', text[p:])]`: non-overlapping, left to right. */
  function OccurrencesFrom(text: string, num: string, p: nat): (ps: seq<nat>)
    requires |num| > 0 && p <= |text|
    ensures forall j :: 0 <= j < |ps| ==> p <= ps[j] && BoundedAt(text, num, ps[j])
    decreases |text| - p
  {
    if p + |num| > |text| then []
    else if BoundedAt(text, num, p) then [p] + OccurrencesFrom(text, num, p + |num|)
    else OccurrencesFrom(text, num, p + 1)
  }

  function Occurrences(text: string, num: string): seq<nat>
    requires |num| > 0
  {
    OccurrencesFrom(text, num, 0)
  }

  /** The text the guard searches: title, description and content, lower-cased. */
  function MemoryText(m: MemoryItem): string
  {
    Lower(m.title + " " + m.description + " " + m.content)
  }

  /** `memory_text[max(0, pos - 50):min(len, pos + 50)]` */
  function Window(text: string, pos: nat): string
    requires pos <= |text|
  {
    text[if pos >= 50 then pos - 50 else 0 .. if pos + 50 <= |text| then pos + 50 else |text|]
  }

  predicate KeywordNear(text: string, pos: nat)
    requires pos <= |text|
  {
    exists w | 0 <= w < |ResultKeywords| :: Contains(Window(text, pos), ResultKeywords[w])
  }

  /** Some found occurrence of `num` has a result keyword near it. */
  predicate NumberLeaks(text: string, num: string)
    requires |num| > 0
  {
    var ps := Occurrences(text, num);
    exists j | 0 <= j < |ps| :: KeywordNear(text, ps[j])
  }

  /** The specification of `_has_answer_leak`. */
  predicate Leaks(m: MemoryItem, expected: Option<string>)
  {
    if expected.None? || expected.value == "" then false
    else
      var text := MemoryText(m);
      var nums := NumberTokens(expected.value);
      exists k | 0 <= k < |nums| :: NumberLeaks(text, nums[k])
  }

  /** `any(keyword in context for keyword in result_keywords)` */
  method AnyKeyword(context: string) returns (found: bool)
    ensures found <==> exists w | 0 <= w < |ResultKeywords| :: Contains(context, ResultKeywords[w])
  {
    var w := 0;
    while w < |ResultKeywords|
      invariant 0 <= w <= |ResultKeywords|
      invariant forall w' :: 0 <= w' < w ==> !Contains(context, ResultKeywords[w'])
    {
      if Contains(context, ResultKeywords[w]) {
        return true;
      }
      w := w + 1;
    }
    return false;
  }

  /** The inner loop of `_has_answer_leak`: the positions of one number, in order, until one has a keyword near it. */
  method AnyOccurrenceNearKeyword(text: string, num: string) returns (found: bool)
    requires |num| > 0
    ensures found == NumberLeaks(text, num)
  {
    var positions := Occurrences(text, num);
    var j := 0;
    while j < |positions|
      invariant 0 <= j <= |positions|
      invariant forall j' :: 0 <= j' < j ==> !KeywordNear(text, positions[j'])
    {
      var near := AnyKeyword(Window(text, positions[j]));
      if near {
        return true;
      }
      j := j + 1;
    }
    return false;
  }

  /** `_has_answer_leak`: the nested search over numbers and positions, returning at the first hit. */
  method HasAnswerLeak(m: MemoryItem, expected: Option<string>) returns (leak: bool)
    ensures leak == Leaks(m, expected)
  {
    if expected.None? || expected.value == "" {
      return false;
    }
    var text := MemoryText(m);
    var nums := NumberTokens(expected.value);
    if |nums| == 0 {
      return false;
    }
    var k := 0;
    while k < |nums|
      invariant 0 <= k <= |nums|
      invariant forall k' :: 0 <= k' < k ==> !NumberLeaks(text, nums[k'])
    {
      var found := AnyOccurrenceNearKeyword(text, nums[k]);
      if found {
        return true;
      }
      k := k + 1;
    }
    return false;
  }

  lemma {:induction false} NumberTokensFromNoDigit(s: string, p: nat)
    requires p <= |s| && forall i :: p <= i < |s| ==> !IsDigit(s[i])
    ensures NumberTokensFrom(s, p) == []
    decreases |s| - p
  {
    if p < |s| {
      NumberTokensFromNoDigit(s, p + 1);
    }
  }

  /** Without an expected value, or with one that holds no digit, nothing leaks. */
  lemma NoLeakWithoutExpectedNumber(m: MemoryItem, expected: Option<string>)
    requires expected.None? || !HasDigit(expected.value)
    ensures !Leaks(m, expected)
  {
    if expected.Some? && expected.value != "" {
      NumberTokensFromNoDigit(expected.value, 0);
    }
  }

  /** A leak is a real occurrence, at word boundaries, of a number taken from the expected value, with a keyword near it. */
  lemma LeakIsBoundedOccurrence(m: MemoryItem, expected: Option<string>)
    requires Leaks(m, expected)
    ensures expected.Some? && expected.value != ""
    ensures exists k, p: nat :: (0 <= k < |NumberTokens(expected.value)| && p <= |MemoryText(m)|
      && BoundedAt(MemoryText(m), NumberTokens(expected.value)[k], p)
      && KeywordNear(MemoryText(m), p))
  {
    var text := MemoryText(m);
    var nums := NumberTokens(expected.value);
    var k :| 0 <= k < |nums| && NumberLeaks(text, nums[k]);
    var ps := Occurrences(text, nums[k]);
    var j :| 0 <= j < |ps| && KeywordNear(text, ps[j]);
    assert BoundedAt(text, nums[k], ps[j]);
  }

  /**
   * For a number made of digits only, the left-to-right scan misses no
   * occurrence at word boundaries: two such occurrences cannot overlap, since
   * a boundary cannot fall between two digits.
   */
  lemma {:induction false} OccurrencesComplete(text: string, num: string, q: nat, p: nat)
    requires |num| > 0 && AllDigits(num)
    requires q <= p && q <= |text| && BoundedAt(text, num, p)
    ensures p in OccurrencesFrom(text, num, q)
    decreases |text| - q
  {
    assert q + |num| <= |text|;
    if q == p {
      OccurrencesHere(text, num, q);
    } else if BoundedAt(text, num, q) {
      BoundedApart(text, num, q, p);
      OccurrencesComplete(text, num, q + |num|, p);
      OccurrencesAfterMatch(text, num, q, p);
    } else {
      OccurrencesComplete(text, num, q + 1, p);
      OccurrencesAfterMiss(text, num, q, p);
    }
  }

  lemma OccurrencesHere(text: string, num: string, q: nat)
    requires |num| > 0 && q + |num| <= |text| && BoundedAt(text, num, q)
    ensures q in OccurrencesFrom(text, num, q)
  {
    assert OccurrencesFrom(text, num, q)[0] == q;
  }

  lemma OccurrencesAfterMatch(text: string, num: string, q: nat, p: nat)
    requires |num| > 0 && q + |num| <= |text| && BoundedAt(text, num, q)
    requires p in OccurrencesFrom(text, num, q + |num|)
    ensures p in OccurrencesFrom(text, num, q)
  {
    assert OccurrencesFrom(text, num, q) == [q] + OccurrencesFrom(text, num, q + |num|);
  }

  lemma OccurrencesAfterMiss(text: string, num: string, q: nat, p: nat)
    requires |num| > 0 && q + |num| <= |text| && !BoundedAt(text, num, q)
    requires p in OccurrencesFrom(text, num, q + 1)
    ensures p in OccurrencesFrom(text, num, q)
  {
  }

  /** Two occurrences of a whole number at word boundaries do not overlap. */
  lemma BoundedApart(text: string, num: string, q: nat, p: nat)
    requires |num| > 0 && AllDigits(num) && q < p
    requires BoundedAt(text, num, q) && BoundedAt(text, num, p)
    ensures q + |num| <= p
  {
    if p < q + |num| {
      assert text[p - 1] == text[q..q + |num|][p - 1 - q];
      assert text[p] == text[p..p + |num|][0];
      assert IsWordChar(text[p - 1]) && IsWordChar(text[p]);
    }
  }

  /** An occurrence of a whole number at word boundaries with a keyword near it is a leak. */
  lemma BoundedNearLeaks(text: string, num: string, p: nat)
    requires |num| > 0 && AllDigits(num) && p <= |text|
    requires BoundedAt(text, num, p) && KeywordNear(text, p)
    ensures NumberLeaks(text, num)
  {
    OccurrencesComplete(text, num, 0, p);
    var ps := Occurrences(text, num);
    var j :| 0 <= j < |ps| && ps[j] == p;
  }

  /**
   * For an expected value whose numbers are whole numbers (no decimal point),
   * the guard fires exactly when one of them occurs at word boundaries in the
   * lower-cased memory text with a result keyword less than 50 characters
   * away.
   */
  lemma LeakIffForWholeNumbers(m: MemoryItem, e: string)
    requires e != ""
    requires forall k :: 0 <= k < |NumberTokens(e)| ==> AllDigits(NumberTokens(e)[k])
    ensures Leaks(m, Some(e)) <==>
      exists k, p: nat :: (0 <= k < |NumberTokens(e)| && p <= |MemoryText(m)|
        && BoundedAt(MemoryText(m), NumberTokens(e)[k], p) && KeywordNear(MemoryText(m), p))
  {
    var text := MemoryText(m);
    var nums := NumberTokens(e);
    if exists k, p: nat :: 0 <= k < |nums| && p <= |text| && BoundedAt(text, nums[k], p) && KeywordNear(text, p) {
      var k, p: nat :| 0 <= k < |nums| && p <= |text| && BoundedAt(text, nums[k], p) && KeywordNear(text, p);
      BoundedNearLeaks(text, nums[k], p);
    }
    if Leaks(m, Some(e)) {
      LeakIsBoundedOccurrence(m, Some(e));
    }
  }

  // ---------------------------------------------------------------------------
  // `retrieve`

  /** A retrieved memory with its similarity score. */
  datatype Scored = Scored(memory: MemoryItem, score: real)

  /** `ranking` is what `np.argsort(scores)` may return: a permutation of the indices, by ascending score. */
  predicate IsArgsort(ranking: seq<nat>, scores: seq<real>)
  {
    && |ranking| == |scores|
    && (forall i :: 0 <= i < |ranking| ==> ranking[i] < |scores|)
    && (forall i, j :: 0 <= i < j < |ranking| ==> ranking[i] != ranking[j])
    && (forall i, j :: 0 <= i < j < |ranking| ==> scores[ranking[i]] <= scores[ranking[j]])
  }

  function Reverse<T>(xs: seq<T>): (r: seq<T>)
    ensures |r| == |xs| && forall i :: 0 <= i < |xs| ==> r[i] == xs[|xs| - 1 - i]
  {
    if |xs| == 0 then [] else [xs[|xs| - 1]] + Reverse(xs[..|xs| - 1])
  }

  /**
   * Where `argsort(...)[-(3 * top_k):]` starts. Python reads `-0` as `0`, so
   * `top_k == 0` keeps the whole ranking, as does a ranking shorter than `3 * top_k`.
   */
  function CutOff(n: nat, topK: nat): (start: nat)
    ensures start <= n
    ensures topK > 0 ==> n - start == if 3 * topK < n then 3 * topK else n
  {
    if topK == 0 || 3 * topK >= n then 0 else n - 3 * topK
  }

  /** `np.argsort(similarities)[-(top_k * 3):][::-1]`: the best `3 * top_k` indices, best first. */
  function TopIndices(ranking: seq<nat>, topK: nat): seq<nat>
  {
    Reverse(ranking[CutOff(|ranking|, topK)..])
  }

  /** `[(memories[idx], similarities[idx]) for idx in top_indices]` */
  function Candidates(memories: seq<MemoryItem>, scores: seq<real>, ranking: seq<nat>, topK: nat): (cs: seq<Scored>)
    requires |scores| == |memories| && IsArgsort(ranking, scores)
    ensures |cs| == |TopIndices(ranking, topK)|
  {
    var top := TopIndices(ranking, topK);
    seq(|top|, i requires 0 <= i < |top| => Scored(memories[top[i]], scores[top[i]]))
  }

  /** `[(m, s) for m, s in candidates if not self._has_answer_leak(m, expected_value)]` */
  function DropLeaking(cs: seq<Scored>, expected: Option<string>): (r: seq<Scored>)
    ensures |r| <= |cs|
    ensures forall i :: 0 <= i < |r| ==> r[i] in cs && !Leaks(r[i].memory, expected)
    ensures forall c :: c in cs && !Leaks(c.memory, expected) ==> c in r
  {
    if |cs| == 0 then []
    else if Leaks(cs[0].memory, expected) then DropLeaking(cs[1..], expected)
    else [cs[0]] + DropLeaking(cs[1..], expected)
  }

  predicate HasExpected(expected: Option<string>)
  {
    expected.Some? && expected.value != ""
  }

  /**
   * `retrieve(query, memories, top_k, expected_value)` over given scores:
   * rank, keep the best `3 * top_k`, drop leaking memories when an expected
   * value is given, keep the first `top_k`.
   */
  function Retrieve(memories: seq<MemoryItem>, scores: seq<real>, ranking: seq<nat>, topK: nat,
                    expected: Option<string>): (r: seq<Scored>)
    requires |scores| == |memories| && IsArgsort(ranking, scores)
    ensures |memories| == 0 ==> r == []
    ensures |r| <= topK
    ensures HasExpected(expected) ==> forall i :: 0 <= i < |r| ==> !Leaks(r[i].memory, expected)
    ensures !HasExpected(expected) ==> r == Take(Candidates(memories, scores, ranking, topK), topK)
    ensures |memories| > 0 && HasExpected(expected) ==>
      r == Take(DropLeaking(Candidates(memories, scores, ranking, topK), expected), topK)
  {
    if |memories| == 0 then []
    else
      var cs := Candidates(memories, scores, ranking, topK);
      if HasExpected(expected) then Take(DropLeaking(cs, expected), topK) else Take(cs, topK)
  }

  /** The candidates come out best first. */
  lemma CandidatesDescending(memories: seq<MemoryItem>, scores: seq<real>, ranking: seq<nat>, topK: nat)
    requires |scores| == |memories| && IsArgsort(ranking, scores)
    ensures forall i, j :: 0 <= i < j < |Candidates(memories, scores, ranking, topK)| ==>
      Candidates(memories, scores, ranking, topK)[i].score >= Candidates(memories, scores, ranking, topK)[j].score
  {
    var start := CutOff(|ranking|, topK);
    var top := TopIndices(ranking, topK);
    forall i, j | 0 <= i < j < |top| ensures scores[top[i]] >= scores[top[j]] {
      var n := |ranking| - start;
      assert top[i] == ranking[start..][n - 1 - i] == ranking[start + n - 1 - i];
      assert top[j] == ranking[start..][n - 1 - j] == ranking[start + n - 1 - j];
    }
  }

  /** `a` is `b` with some elements left out, the rest in their order. */
  predicate Subsequence<T(==)>(a: seq<T>, b: seq<T>)
    decreases |b|
  {
    if |a| == 0 then true
    else if |b| == 0 then false
    else (a[0] == b[0] && Subsequence(a[1..], b[1..])) || Subsequence(a, b[1..])
  }

  lemma {:induction false} DropLeakingSubsequence(cs: seq<Scored>, expected: Option<string>)
    ensures Subsequence(DropLeaking(cs, expected), cs)
  {
    if |cs| > 0 {
      DropLeakingSubsequence(cs[1..], expected);
    }
  }

  lemma {:induction false} SubsequenceOfPrefix<T>(a: seq<T>, b: seq<T>, k: nat)
    requires Subsequence(a, b)
    ensures Subsequence(Take(a, k), b)
    decreases |b|
  {
    if |a| > 0 && k > 0 {
      if a[0] == b[0] && Subsequence(a[1..], b[1..]) {
        SubsequenceOfPrefix(a[1..], b[1..], k - 1);
        assert Take(a, k)[1..] == Take(a[1..], k - 1);
      } else {
        SubsequenceOfPrefix(a, b[1..], k);
      }
    }
  }

  lemma {:induction false} SubsequenceSorted(a: seq<Scored>, b: seq<Scored>)
    requires Subsequence(a, b)
    requires forall i, j :: 0 <= i < j < |b| ==> b[i].score >= b[j].score
    ensures forall i, j :: 0 <= i < j < |a| ==> a[i].score >= a[j].score
    ensures forall i :: 0 <= i < |a| ==> a[i] in b
    decreases |b|
  {
    if |a| > 0 {
      if a[0] == b[0] && Subsequence(a[1..], b[1..]) {
        SubsequenceSorted(a[1..], b[1..]);
        forall j | 0 < j < |a| ensures a[0].score >= a[j].score {
          assert a[j] == a[1..][j - 1];
        }
        forall i | 0 <= i < |a| ensures a[i] in b {
          if i > 0 { assert a[i] == a[1..][i - 1]; }
        }
      } else {
        SubsequenceSorted(a, b[1..]);
      }
    }
  }

  /**
   * The result is an order-preserving selection from the ranked candidates,
   * so its scores never increase.
   */
  lemma RetrieveOrdered(memories: seq<MemoryItem>, scores: seq<real>, ranking: seq<nat>, topK: nat,
                        expected: Option<string>)
    requires |scores| == |memories| && IsArgsort(ranking, scores)
    ensures Subsequence(Retrieve(memories, scores, ranking, topK, expected), Candidates(memories, scores, ranking, topK))
    ensures forall i, j :: 0 <= i < j < |Retrieve(memories, scores, ranking, topK, expected)| ==>
      Retrieve(memories, scores, ranking, topK, expected)[i].score >= Retrieve(memories, scores, ranking, topK, expected)[j].score
  {
    var cs := Candidates(memories, scores, ranking, topK);
    var r := Retrieve(memories, scores, ranking, topK, expected);
    CandidatesDescending(memories, scores, ranking, topK);
    if |memories| == 0 {
    } else if HasExpected(expected) {
      DropLeakingSubsequence(cs, expected);
      SubsequenceOfPrefix(DropLeaking(cs, expected), cs, topK);
    } else {
      SubsequenceIdentity(cs);
      SubsequenceOfPrefix(cs, cs, topK);
    }
    SubsequenceSorted(r, cs);
  }

  lemma {:induction false} SubsequenceIdentity<T>(a: seq<T>)
    ensures Subsequence(a, a)
  {
    if |a| > 0 {
      SubsequenceIdentity(a[1..]);
    }
  }

  /**
   * Every returned memory comes from the `3 * top_k` best-ranked indices, and
   * no index outside them scores higher than any returned memory.
   */
  lemma RetrieveFromTopCandidates(memories: seq<MemoryItem>, scores: seq<real>, ranking: seq<nat>, topK: nat,
                                  expected: Option<string>)
    requires |scores| == |memories| && IsArgsort(ranking, scores)
    ensures topK > 0 ==> |TopIndices(ranking, topK)| <= 3 * topK
    ensures forall i :: 0 <= i < |Retrieve(memories, scores, ranking, topK, expected)| ==>
      Retrieve(memories, scores, ranking, topK, expected)[i] in Candidates(memories, scores, ranking, topK)
    ensures forall i, j :: (0 <= i < |Retrieve(memories, scores, ranking, topK, expected)| && 0 <= j < |scores|
      && j !in TopIndices(ranking, topK)) ==> scores[j] <= Retrieve(memories, scores, ranking, topK, expected)[i].score
  {
    var cs := Candidates(memories, scores, ranking, topK);
    var r := Retrieve(memories, scores, ranking, topK, expected);
    RetrieveOrdered(memories, scores, ranking, topK, expected);
    CandidatesDescending(memories, scores, ranking, topK);
    SubsequenceSorted(r, cs);
    forall i, j | 0 <= i < |r| && 0 <= j < |scores| && j !in TopIndices(ranking, topK) ensures scores[j] <= r[i].score {
      var t :| 0 <= t < |cs| && cs[t] == r[i];
      CandidateBeatsOutsider(memories, scores, ranking, topK, t, j);
    }
  }

  /** A candidate scores at least as high as any index left out of the candidates. */
  lemma CandidateBeatsOutsider(memories: seq<MemoryItem>, scores: seq<real>, ranking: seq<nat>, topK: nat, t: nat, j: nat)
    requires |scores| == |memories| && IsArgsort(ranking, scores)
    requires t < |TopIndices(ranking, topK)| && j < |scores| && j !in TopIndices(ranking, topK)
    ensures scores[j] <= Candidates(memories, scores, ranking, topK)[t].score
  {
    var top := TopIndices(ranking, topK);
    var start := CutOff(|ranking|, topK);
    var n := |ranking| - start;
    var pt := start + n - 1 - t;
    assert top[t] == ranking[start..][n - 1 - t] == ranking[pt];
    var q := PositionOf(ranking, scores, j);
    if q >= start {
      RankedInTop(ranking, topK, q);
      assert false;
    }
    assert scores[ranking[q]] <= scores[ranking[pt]];
  }

  lemma RankedInTop(ranking: seq<nat>, topK: nat, q: nat)
    requires CutOff(|ranking|, topK) <= q < |ranking|
    ensures ranking[q] in TopIndices(ranking, topK)
  {
    var start := CutOff(|ranking|, topK);
    var n := |ranking| - start;
    assert TopIndices(ranking, topK)[n - 1 - (q - start)] == ranking[start..][q - start];
  }

  /**
   * The guard is applied after the cut to `3 * top_k`: when every one of those
   * candidates leaks, nothing is returned, however many non-leaking memories
   * rank below them.
   */
  lemma RetrieveEmptyWhenTopCandidatesLeak(memories: seq<MemoryItem>, scores: seq<real>, ranking: seq<nat>,
                                           topK: nat, expected: Option<string>)
    requires |scores| == |memories| && IsArgsort(ranking, scores) && HasExpected(expected)
    requires forall t :: 0 <= t < |TopIndices(ranking, topK)| ==> Leaks(memories[TopIndices(ranking, topK)[t]], expected)
    ensures Retrieve(memories, scores, ranking, topK, expected) == []
  {
    DropAllLeaking(Candidates(memories, scores, ranking, topK), expected);
  }

  lemma {:induction false} DropAllLeaking(cs: seq<Scored>, expected: Option<string>)
    requires forall i :: 0 <= i < |cs| ==> Leaks(cs[i].memory, expected)
    ensures DropLeaking(cs, expected) == []
  {
    if |cs| > 0 {
      DropAllLeaking(cs[1..], expected);
    }
  }

  /**
   * Nothing usable is passed over: a candidate that does not leak is left out
   * of the result only when the result already holds `top_k` memories.
   */
  lemma RetrieveKeepsUsableCandidates(memories: seq<MemoryItem>, scores: seq<real>, ranking: seq<nat>,
                                      topK: nat, expected: Option<string>, c: Scored)
    requires |scores| == |memories| && IsArgsort(ranking, scores)
    requires c in Candidates(memories, scores, ranking, topK) && !Leaks(c.memory, expected)
    requires c !in Retrieve(memories, scores, ranking, topK, expected)
    ensures |Retrieve(memories, scores, ranking, topK, expected)| == topK
  {
    var cs := Candidates(memories, scores, ranking, topK);
    if |memories| > 0 && HasExpected(expected) {
      var kept := DropLeaking(cs, expected);
      assert c in kept;
    }
  }

  /** The memory text of a memory that has no digit holds no digit either. */
  lemma LowerKeepsNoDigit(s: string)
    requires !HasDigit(s)
    ensures !HasDigit(Lower(s))
  {
    forall i | 0 <= i < |s| ensures !IsDigit(Lower(s)[i]) {
      assert !IsDigit(s[i]);
    }
  }

  lemma {:induction false} OccurrencesNeedFirstChar(text: string, num: string, p: nat)
    requires |num| > 0 && IsDigit(num[0]) && p <= |text| && !HasDigit(text)
    ensures OccurrencesFrom(text, num, p) == []
    decreases |text| - p
  {
    if p + |num| <= |text| {
      assert text[p..p + |num|][0] == text[p];
      assert !IsDigit(text[p]);
      OccurrencesNeedFirstChar(text, num, p + 1);
    }
  }

  /** A memory whose title, description and content hold no digit never leaks. */
  lemma NoDigitNeverLeaks(m: MemoryItem, expected: Option<string>)
    requires !HasDigit(m.title + " " + m.description + " " + m.content)
    ensures !Leaks(m, expected)
  {
    if expected.Some? && expected.value != "" {
      var text := MemoryText(m);
      var nums := NumberTokens(expected.value);
      LowerKeepsNoDigit(m.title + " " + m.description + " " + m.content);
      forall k | 0 <= k < |nums| ensures !NumberLeaks(text, nums[k]) {
        OccurrencesNeedFirstChar(text, nums[k], 0);
      }
    }
  }

  /** Lower-casing leaves the digits and the words "is " alone. */
  lemma {:induction false} LowerOfStated(before: string, num: string, after: string)
    requires AllDigits(num)
    ensures Lower(before + "is " + num + after) == Lower(before) + "is " + num + Lower(after)
  {
    LowerConcat(before + "is " + num, after);
    LowerConcat(before + "is ", num);
    LowerConcat(before, "is ");
    assert Lower(num) == num;
    assert Lower("is ") == "is ";
  }

  /** In `lb + "is " + num + la`, `num` sits at word boundaries. */
  lemma {:induction false} StatedBounded(lb: string, num: string, la: string)
    requires |num| > 0 && AllDigits(num)
    requires la == "" || !IsWordChar(la[0])
    ensures BoundedAt(lb + "is " + num + la, num, |lb| + 3)
  {
    var text := lb + "is " + num + la;
    var p := |lb| + 3;
    assert text[p..p + |num|] == num;
    assert text[p - 1] == ' ';
    assert text[p] == num[0];
    assert text[p + |num| - 1] == num[|num| - 1];
    if la != "" {
      assert text[p + |num|] == la[0];
    }
  }

  /** `is` lies inside the window around a number that follows it. */
  lemma {:induction false} StatedKeywordNear(lb: string, num: string, la: string)
    ensures |lb| + 3 <= |lb + "is " + num + la|
    ensures KeywordNear(lb + "is " + num + la, |lb| + 3)
  {
    var text := lb + "is " + num + la;
    var p := |lb| + 3;
    var lo := if p >= 50 then p - 50 else 0;
    var hi := if p + 50 <= |text| then p + 50 else |text|;
    assert OccursAt(text, "is", p - 3) by {
      assert text[p - 3..p - 1] == "is";
    }
    OccursWithin(text, "is", lo, hi, p - 3);
    assert Contains(Window(text, p), ResultKeywords[6]);
  }

  /**
   * A memory that states "is N" for a whole number N, with N not followed by
   * a word character, leaks N: `is` is a result keyword right before it.
   */
  lemma {:induction false} StatedNumberLeaks(m: MemoryItem, before: string, num: string, after: string)
    requires m.title + " " + m.description + " " + m.content == before + "is " + num + after
    requires |num| > 0 && AllDigits(num) && NumberTokens(num) == [num]
    requires after == "" || !IsWordChar(after[0])
    ensures Leaks(m, Some(num))
  {
    var lb := Lower(before);
    var la := Lower(after);
    LowerOfStated(before, num, after);
    assert MemoryText(m) == lb + "is " + num + la;
    assert la == "" || !IsWordChar(la[0]) by {
      if after != "" {
        assert la[0] == ToLower(after[0]);
      }
    }
    StatedBounded(lb, num, la);
    StatedKeywordNear(lb, num, la);
    BoundedNearLeaks(MemoryText(m), num, |lb| + 3);
    assert NumberTokens(num)[0] == num;
  }

  lemma {:induction false} FortyTwoToken()
    ensures NumberTokens("42") == ["42"] && AllDigits("42")
  {
    assert NumberMatchAt("42", 0) == Some(2);
    assert "42"[0..2] == "42";
  }

  /** The first memory of the retrieval scenario, which states the answer 42. */
  function StatingMemory(createdAt: string): MemoryItem
  {
    MemoryItem("Test Strategy", "A test memory", "When solving this type of problem, the answer " + "is " + "42" + ".",
               "test_1", true, createdAt, None)
  }

  /** The second memory of the retrieval scenario, a strategy without numbers. */
  function GeneralMemory(createdAt: string): MemoryItem
  {
    MemoryItem("General Strategy", "Good approach", "Break down the " + "problem into steps " + "and solve systematically.",
               "test_2", true, createdAt, None)
  }

  lemma {:induction false} StatingMemoryLeaks(createdAt: string)
    ensures Leaks(StatingMemory(createdAt), Some("42"))
  {
    var m := StatingMemory(createdAt);
    var before := "Test Strategy" + " " + "A test memory" + " " + "When solving this type of problem, the answer ";
    assert m.title + " " + m.description + " " + m.content == before + "is " + "42" + ".";
    FortyTwoToken();
    StatedNumberLeaks(m, before, "42", ".");
  }

  lemma NoDigitConcat(a: string, b: string)
    requires !HasDigit(a) && !HasDigit(b)
    ensures !HasDigit(a + b)
  {
    forall i | 0 <= i < |a + b| ensures !IsDigit((a + b)[i]) {
      if i >= |a| {
        assert (a + b)[i] == b[i - |a|];
      }
    }
  }

  const Digits: set<char> := {'0', '1', '2', '3', '4', '5', '6', '7', '8', '9'}

  lemma AvoidsDigits(s: string)
    requires Avoids(s, Digits)
    ensures !HasDigit(s)
  {
    forall i | 0 <= i < |s| ensures !IsDigit(s[i]) {
      assert s[i] !in Digits;
    }
  }

  lemma {:induction false} GeneralTitleHasNoDigit()
    ensures !HasDigit("General Strategy") && !HasDigit(" ") && !HasDigit("Good approach")
  {
    assert Avoids("General Strategy", Digits) && Avoids(" ", Digits) && Avoids("Good approach", Digits);
    AvoidsDigits("General Strategy");
    AvoidsDigits(" ");
    AvoidsDigits("Good approach");
  }

  lemma {:induction false} GeneralContentPieces()
    ensures Avoids("Break down the ", Digits) && Avoids("problem into steps ", Digits)
  {
  }

  lemma {:induction false} GeneralContentHasNoDigit()
    ensures !HasDigit("Break down the " + "problem into steps " + "and solve systematically.")
  {
    var a, b, c := "Break down the ", "problem into steps ", "and solve systematically.";
    GeneralContentPieces();
    assert Avoids(c, Digits);
    AvoidsDigits(a);
    AvoidsDigits(b);
    AvoidsDigits(c);
    NoDigitConcat(a, b);
    NoDigitConcat(a + b, c);
  }

  lemma {:induction false} GeneralMemoryHasNoDigit(createdAt: string)
    ensures var m := GeneralMemory(createdAt); !HasDigit(m.title + " " + m.description + " " + m.content)
  {
    var m := GeneralMemory(createdAt);
    GeneralTitleHasNoDigit();
    GeneralContentHasNoDigit();
    NoDigitConcat(m.title, " ");
    NoDigitConcat(m.title + " ", m.description);
    NoDigitConcat(m.title + " " + m.description, " ");
    NoDigitConcat(m.title + " " + m.description + " ", m.content);
  }

  /** With two memories and `top_k` 2, both are candidates, best first. */
  lemma {:induction false} TwoCandidates(memories: seq<MemoryItem>, scores: seq<real>, ranking: seq<nat>)
    requires |memories| == 2 && |scores| == 2 && IsArgsort(ranking, scores)
    ensures var a := Scored(memories[0], scores[0]);
      var b := Scored(memories[1], scores[1]);
      Candidates(memories, scores, ranking, 2) == [b, a] || Candidates(memories, scores, ranking, 2) == [a, b]
  {
    assert CutOff(2, 2) == 0;
    assert ranking[0..] == ranking;
    assert ranking == [0, 1] || ranking == [1, 0];
  }

  /**
   * The repository's retrieval scenario: of a memory stating the answer 42
   * and a general strategy, asked for two memories with expected value `42`,
   * only the general strategy comes back, whatever the similarity scores.
   */
  lemma {:induction false} RetrievalScenario(scores: seq<real>, ranking: seq<nat>, created1: string, created2: string)
    requires |scores| == 2 && IsArgsort(ranking, scores)
    ensures Retrieve([StatingMemory(created1), GeneralMemory(created2)], scores, ranking, 2, Some("42"))
      == [Scored(GeneralMemory(created2), scores[1])]
  {
    var memories := [StatingMemory(created1), GeneralMemory(created2)];
    var e := Some("42");
    StatingMemoryLeaks(created1);
    GeneralMemoryHasNoDigit(created2);
    NoDigitNeverLeaks(GeneralMemory(created2), e);
    TwoCandidates(memories, scores, ranking);
    var cs := Candidates(memories, scores, ranking, 2);
    var a := Scored(memories[0], scores[0]);
    var b := Scored(memories[1], scores[1]);
    assert Leaks(a.memory, e) && !Leaks(b.memory, e);
    assert DropLeaking([a], e) == [];
    assert DropLeaking([b], e) == [b];
    if cs == [b, a] {
      assert cs[1..] == [a];
    } else {
      assert cs[1..] == [b];
    }
    assert DropLeaking(cs, e) == [b];
  }

  /** Every index appears in a permutation of the indices (by counting: the positions hit `|scores|` distinct indices). */
  lemma PositionOf(ranking: seq<nat>, scores: seq<real>, j: nat) returns (q: nat)
    requires IsArgsort(ranking, scores) && j < |scores|
    ensures q < |ranking| && ranking[q] == j
  {
    var hit := set i | 0 <= i < |ranking| :: ranking[i];
    if j !in hit {
      var others := Interval(|scores|) - {j};
      assert hit <= others;
      ImageSize(ranking);
      SubsetSize(hit, others);
      assert false;
    }
    var i :| 0 <= i < |ranking| && ranking[i] == j;
    q := i;
  }

  /** The indices below `n`. */
  function Interval(n: nat): (r: set<nat>)
    ensures |r| == n && forall x: int :: x in r <==> 0 <= x < n
  {
    if n == 0 then {}
    else
      var below := Interval(n - 1);
      assert n - 1 !in below;
      below + {n - 1}
  }

  lemma SubsetSize<T>(a: set<T>, b: set<T>)
    requires a <= b
    ensures |a| <= |b|
  {
    assert b == a + (b - a);
  }

  /** A sequence without repeats has as many distinct elements as positions. */
  lemma {:induction false} ImageSize(xs: seq<nat>)
    requires forall i, j :: 0 <= i < j < |xs| ==> xs[i] != xs[j]
    ensures |set i | 0 <= i < |xs| :: xs[i]| == |xs|
  {
    if |xs| > 0 {
      var init := xs[..|xs| - 1];
      ImageSize(init);
      var a := set i | 0 <= i < |init| :: init[i];
      var b := set i | 0 <= i < |xs| :: xs[i];
      assert b == a + {xs[|xs| - 1]};
      assert xs[|xs| - 1] !in a;
    }
  }

  // ---------------------------------------------------------------------------
  // `format_memories_for_prompt`

  const PromptHeader: string :=
    "## Past Strategy Hints:\n\n"
    + "**Important**: These are STRATEGY hints only. Do NOT copy any numbers from them.\n\n"

  function StatusLabel(success: bool): string
  {
    if success then "\U{2713} Success Strategy" else "\U{2717} Lesson from Failure"
  }

  /** The section for the `idx`-th memory: its status, title and content. */
  function Section(idx: nat, m: MemoryItem): string
  {
    "### Strategy " + NatToString(idx) + " (" + StatusLabel(m.success) + "):\n"
    + "**" + m.title + "**\n"
    + m.content + "\n\n"
  }

  /** The sections for `rs`, numbered from 1. */
  function Sections(rs: seq<Scored>): string
  {
    if |rs| == 0 then "" else Sections(rs[..|rs| - 1]) + Section(|rs|, rs[|rs| - 1].memory)
  }

  function FormatSpec(rs: seq<Scored>): string
  {
    if |rs| == 0 then "" else PromptHeader + Sections(rs)
  }

  /** `format_memories_for_prompt`: header and warning, then one section per memory, built with `+=`. */
  method FormatMemoriesForPrompt(retrieved: seq<Scored>) returns (formatted: string)
    ensures formatted == FormatSpec(retrieved)
    ensures |retrieved| == 0 <==> formatted == ""
    ensures |retrieved| > 0 ==> PromptHeader <= formatted
  {
    if |retrieved| == 0 {
      return "";
    }
    formatted := PromptHeader;
    var idx := 0;
    while idx < |retrieved|
      invariant 0 <= idx <= |retrieved|
      invariant formatted == PromptHeader + Sections(retrieved[..idx])
    {
      var memory := retrieved[idx].memory;
      formatted := formatted + Section(idx + 1, memory);
      assert retrieved[..idx + 1][..idx] == retrieved[..idx];
      AppendAssoc(PromptHeader, Sections(retrieved[..idx]), Section(idx + 1, memory));
      idx := idx + 1;
    }
    assert retrieved[..idx] == retrieved;
  }

  /** Appending a memory appends its section, numbered one past the others. */
  lemma FormatAppend(rs: seq<Scored>, x: Scored)
    requires |rs| > 0
    ensures FormatSpec(rs + [x]) == FormatSpec(rs) + Section(|rs| + 1, x.memory)
  {
    assert (rs + [x])[..|rs|] == rs;
    AppendAssoc(PromptHeader, Sections(rs), Section(|rs| + 1, x.memory));
  }

  /** Only the success flag, title and content of each memory are rendered: scores and descriptions are not. */
  lemma {:induction false} FormatIgnoresScoreAndDescription(rs: seq<Scored>, ss: seq<Scored>)
    requires |rs| == |ss|
    requires forall i :: 0 <= i < |rs| ==> (rs[i].memory.success == ss[i].memory.success
      && rs[i].memory.title == ss[i].memory.title && rs[i].memory.content == ss[i].memory.content)
    ensures FormatSpec(rs) == FormatSpec(ss)
  {
    if |rs| > 0 {
      SectionsAgree(rs, ss);
    }
  }

  lemma {:induction false} SectionsAgree(rs: seq<Scored>, ss: seq<Scored>)
    requires |rs| == |ss|
    requires forall i :: 0 <= i < |rs| ==> (rs[i].memory.success == ss[i].memory.success
      && rs[i].memory.title == ss[i].memory.title && rs[i].memory.content == ss[i].memory.content)
    ensures Sections(rs) == Sections(ss)
  {
    if |rs| > 0 {
      SectionsAgree(rs[..|rs| - 1], ss[..|ss| - 1]);
    }
  }
}
