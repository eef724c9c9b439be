/**
 * The data preparation of src/download_dataset.py: how GSM8K and MATH items
 * become experiment problems. Loading the datasets and writing the JSON
 * files are outside the model; the loaded splits are parameters.
 */
module Datasets {
  import opened Wrappers
  import opened Text

  // ---------------------------------------------------------------------------
  // Order-preserving filtering

  /** The elements of `xs` that `keep` accepts, in their original order. */
  function Filter<T>(xs: seq<T>, keep: T -> bool): (r: seq<T>)
    ensures |r| <= |xs|
    ensures forall k :: 0 <= k < |r| ==> keep(r[k]) && r[k] in xs
    ensures forall x :: x in xs && keep(x) ==> x in r
  {
    if |xs| == 0 then []
    else Filter(xs[..|xs| - 1], keep) + (if keep(Last(xs)) then [Last(xs)] else [])
  }

  /** Filtering distributes over concatenation, so it keeps the order of what it keeps. */
  lemma {:induction false} FilterConcat<T>(a: seq<T>, b: seq<T>, keep: T -> bool)
    ensures Filter(a + b, keep) == Filter(a, keep) + Filter(b, keep)
  {
    if |b| > 0 {
      assert (a + b)[..|a + b| - 1] == a + b[..|b| - 1];
      FilterConcat(a, b[..|b| - 1], keep);
    } else {
      assert a + b == a;
    }
  }

  /** A list whose every element is accepted survives filtering unchanged. */
  lemma {:induction false} FilterAllKept<T>(xs: seq<T>, keep: T -> bool)
    requires forall k :: 0 <= k < |xs| ==> keep(xs[k])
    ensures Filter(xs, keep) == xs
  {
    if |xs| > 0 {
      FilterAllKept(xs[..|xs| - 1], keep);
    }
  }

  // ---------------------------------------------------------------------------
  // Problem ids

  /** `f'{prefix}{idx}'` */
  function ProblemId(prefix: string, idx: nat): (id: string)
    ensures |id| > |prefix| && id[..|prefix|] == prefix
    ensures AllDigits(id[|prefix|..])
  {
    var id := prefix + NatToString(idx);
    assert id[|prefix|..] == NatToString(idx);
    id
  }

  /** Different indices give different ids. */
  lemma ProblemIdInjective(prefix: string, i: nat, j: nat)
    requires ProblemId(prefix, i) == ProblemId(prefix, j)
    ensures i == j
  {
    assert ProblemId(prefix, i)[|prefix|..] == NatToString(i);
    assert ProblemId(prefix, j)[|prefix|..] == NatToString(j);
    NatToStringInjective(i, j);
  }

  // ---------------------------------------------------------------------------
  // GSM8K

  const GoldSeparator: string := "####"

  /**
   * `extract_answer`: no answer without `####`; otherwise the stripped text
   * after the last `####`, which holds no `####` itself.
   */
  function ExtractAnswer(answerText: string): (r: Option<string>)
    ensures r.None? <==> !Contains(answerText, GoldSeparator)
    ensures r.Some? ==> Trimmed(r.value) && !Contains(r.value, GoldSeparator)
    ensures r.Some? ==> exists i :: (0 <= i && OccursAt(answerText, GoldSeparator, i)
      && !Contains(answerText[i + |GoldSeparator|..], GoldSeparator)
      && r.value == Strip(answerText[i + |GoldSeparator|..]))
  {
    if Contains(answerText, GoldSeparator) then
      SplitContains(answerText, GoldSeparator);
      SplitLastOccurrence(answerText, GoldSeparator);
      StripIsTrimmed(Last(Split(answerText, GoldSeparator)));
      StripKeepsAbsent(Last(Split(answerText, GoldSeparator)), GoldSeparator);
      Some(AfterLast(answerText, GoldSeparator))
    else None
  }

  /**
   * Text after a line that ends where a separator line `<sep> <answer>`
   * starts: the separator is found, and what follows its last occurrence,
   * stripped, is `answer`.
   */
  lemma {:induction false} AfterSeparatorLine(solution: string, sep: string, answer: string)
    requires |sep| > 0 && Avoids(sep, {' '}) && Avoids(sep, {'\n'}) && !Contains(solution, sep)
    requires Trimmed(answer) && !Contains(answer, sep)
    ensures Contains(solution + "\n" + sep + " " + answer, sep)
    ensures AfterLast(solution + "\n" + sep + " " + answer, sep) == answer
  {
    var a := solution + "\n";
    var b := " " + answer;
    var t := solution + "\n" + sep + " " + answer;
    assert t == a + sep + b;
    assert a == solution + ['\n'] + "";
    ContainsAcross(solution, '\n', "", sep);
    NoOccurrenceBefore(a, sep, b);
    SplitFirst(a, sep, b);
    PaddedAvoids(answer, sep);
    SplitWithout(b, sep);
    StripPadded(answer);
    assert OccursAt(t, sep, |a|) by {
      assert t[|a|..|a| + |sep|] == sep;
    }
  }

  /** A solution in the GSM8K layout, `...\n#### <answer>`, gives back its answer. */
  lemma {:induction false} ExtractAnswerOfGold(solution: string, answer: string)
    requires !Contains(solution, GoldSeparator)
    requires Trimmed(answer) && !Contains(answer, GoldSeparator)
    ensures ExtractAnswer(solution + "\n#### " + answer) == Some(answer)
  {
    assert solution + "\n#### " + answer == solution + "\n" + GoldSeparator + " " + answer;
    assert Avoids(GoldSeparator, {' '}) && Avoids(GoldSeparator, {'\n'});
    AfterSeparatorLine(solution, GoldSeparator, answer);
  }

  /** A GSM8K record as loaded. */
  datatype GsmItem = GsmItem(question: string, answer: string)

  /** A prepared problem; `expectedValue` is None when no answer was found. */
  datatype GsmProblem = GsmProblem(id: string, question: string, answer: string, expectedValue: Option<string>)

  /** `format_item` of `prepare_gsm8k` */
  function FormatGsm(item: GsmItem, idx: nat): (p: GsmProblem)
    ensures p.id == ProblemId("gsm8k_", idx)
    ensures p.question == item.question && p.answer == item.answer
    ensures p.expectedValue.None? <==> !Contains(item.answer, GoldSeparator)
  {
    GsmProblem(ProblemId("gsm8k_", idx), item.question, item.answer, ExtractAnswer(item.answer))
  }

  /** `[format_item(item, idx + offset) for idx, item in enumerate(items)]` */
  function FormatGsmAll(items: seq<GsmItem>, offset: nat): seq<GsmProblem>
  {
    seq(|items|, i requires 0 <= i < |items| => FormatGsm(items[i], offset + i))
  }

  /**
   * `prepare_gsm8k`: the first 200 training and first 100 test records,
   * numbered from 0 and from 1000.
   */
  function PrepareGsm8k(train: seq<GsmItem>, test: seq<GsmItem>): (r: (seq<GsmProblem>, seq<GsmProblem>))
    requires |train| >= 200 && |test| >= 100
    ensures |r.0| == 200 && |r.1| == 100
    ensures forall i :: 0 <= i < 200 ==> r.0[i].id == ProblemId("gsm8k_", i) && r.0[i].question == train[i].question
    ensures forall i :: 0 <= i < 100 ==> r.1[i].id == ProblemId("gsm8k_", 1000 + i) && r.1[i].question == test[i].question
  {
    (FormatGsmAll(train[..200], 0), FormatGsmAll(test[..100], 1000))
  }

  lemma ProblemIdsDiffer(prefix: string, i: nat, j: nat)
    ensures i != j ==> ProblemId(prefix, i) != ProblemId(prefix, j)
  {
    if ProblemId(prefix, i) == ProblemId(prefix, j) {
      ProblemIdInjective(prefix, i, j);
    }
  }

  /** No two prepared GSM8K problems, in either list, share an id. */
  lemma GsmIdsDistinct(train: seq<GsmItem>, test: seq<GsmItem>)
    requires |train| >= 200 && |test| >= 100
    ensures var r := PrepareGsm8k(train, test);
      (forall i, j :: 0 <= i < j < 200 ==> r.0[i].id != r.0[j].id)
      && (forall i, j :: 0 <= i < j < 100 ==> r.1[i].id != r.1[j].id)
      && (forall i, j :: 0 <= i < 200 && 0 <= j < 100 ==> r.0[i].id != r.1[j].id)
  {
    forall i: nat, j: nat {
      ProblemIdsDiffer("gsm8k_", i, j);
    }
  }

  // ---------------------------------------------------------------------------
  // MATH

  /**
   * `extract_boxed_answer`: the group of the first `\boxed{...}` with every
   * `\` and `$` removed, then stripped; failing that, the last number; else
   * nothing.
   */
  function ExtractBoxedAnswer(solution: string): (r: Option<string>)
    ensures r.None? <==> BoxedContent(solution).None? && !HasDigit(solution)
    ensures BoxedContent(solution).Some? ==>
      r.Some? && Trimmed(r.value) && Avoids(r.value, {'\\', '$', '}'})
    ensures BoxedContent(solution).None? ==> r == LastDecimalToken(solution)
  {
    match BoxedContent(solution)
    case Some(group) =>
      SingleCharAbsent(group, '}');
      RemoveCharAvoids(group, '\\', {'}'});
      RemoveCharAvoids(RemoveAll(group, "\\"), '$', {'}', '\\'});
      assert {'}', '\\'} + {'$'} == {'\\', '$', '}'};
      var answer := Strip(RemoveAll(RemoveAll(group, "\\"), "$"));
      StripAvoids(RemoveAll(RemoveAll(group, "\\"), "$"), {'\\', '$', '}'});
      StripIsTrimmed(RemoveAll(RemoveAll(group, "\\"), "$"));
      Some(answer)
    case None =>
      LastDecimalTokenNone(solution);
      LastDecimalToken(solution)
  }

  /** No `\boxed{` match starts before `|pre|` when `pre` has no backslash. */
  lemma {:induction false} BoxedSkipsPlain(pre: string, rest: string, p: nat)
    requires Avoids(pre, {'\\'}) && p <= |pre|
    ensures BoxedFrom(pre + rest, p) == BoxedFrom(pre + rest, |pre|)
    decreases |pre| - p
  {
    if p < |pre| {
      var s := pre + rest;
      NotOccursAt(s, BoxedOpen, p);
      BoxedSkipsPlain(pre, rest, p + 1);
    }
  }

  /** The first `}` at or after `start` is at `q`. */
  lemma FindCloseBrace(s: string, start: nat, q: nat)
    requires start <= q && OccursAt(s, "}", q)
    requires forall j :: start <= j < q ==> s[j] != '}'
    ensures FindFrom(s, "}", start) == Some(q)
  {
    forall j | start <= j < q ensures !OccursAt(s, "}", j) {
      NotOccursAt(s, "}", j);
    }
  }

  /** A match at `p` whose first `}` after `\boxed{` is at `q` yields the text between. */
  lemma BoxedMatchAt(s: string, p: nat, q: nat)
    requires p < |s| && OccursAt(s, BoxedOpen, p)
    requires p + |BoxedOpen| < q && FindFrom(s, "}", p + |BoxedOpen|) == Some(q)
    ensures BoxedFrom(s, p) == Some(s[p + |BoxedOpen|..q])
  {
  }

  /** Where the five pieces of a concatenation sit in it. */
  lemma PiecesOfConcat(a: string, b: string, c: string, d: string, e: string)
    ensures a + b + c + d + e == a + (b + c + d + e)
    ensures var s := a + b + c + d + e;
      s[|a|..|a| + |b|] == b && s[|a| + |b|..|a| + |b| + |c|] == c
      && s[|a| + |b| + |c|..|a| + |b| + |c| + |d|] == d
  {
  }

  /** A match at `p` whose group is `group`, closed by the next character. */
  lemma BoxedGroupAt(s: string, p: nat, group: string)
    requires p + |BoxedOpen| + |group| < |s| && |group| > 0 && Avoids(group, {'}'})
    requires s[p..p + |BoxedOpen|] == BoxedOpen
    requires s[p + |BoxedOpen|..p + |BoxedOpen| + |group|] == group
    requires s[p + |BoxedOpen| + |group|] == '}'
    ensures BoxedFrom(s, p) == Some(group)
  {
    var start := p + |BoxedOpen|;
    var q := start + |group|;
    assert OccursAt(s, "}", q);
    FindCloseBrace(s, start, q);
    BoxedMatchAt(s, p, q);
  }

  /** The leftmost `\boxed{...}` group of such a solution is `group`. */
  lemma {:induction false} BoxedOfPlainPrefix(pre: string, group: string, post: string)
    requires Avoids(pre, {'\\'}) && |group| > 0 && Avoids(group, {'}'})
    ensures BoxedContent(pre + BoxedOpen + group + "}" + post) == Some(group)
  {
    var close := "}";
    var rest := BoxedOpen + group + close + post;
    PiecesOfConcat(pre, BoxedOpen, group, close, post);
    BoxedSkipsPlain(pre, rest, 0);
    BoxedGroupAt(pre + rest, |pre|, group);
  }

  /**
   * A solution whose first backslash opens `\boxed{group}`, with `group`
   * running up to the first `}`, answers with that group once every `\` and
   * `$` is removed from it and it is stripped.
   */
  lemma {:induction false} ExtractBoxedOfGroup(pre: string, group: string, post: string)
    requires Avoids(pre, {'\\'}) && |group| > 0 && Avoids(group, {'}'})
    ensures ExtractBoxedAnswer(pre + BoxedOpen + group + "}" + post)
      == Some(Strip(RemoveAll(RemoveAll(group, "\\"), "$")))
  {
    BoxedOfPlainPrefix(pre, group, post);
  }

  /** Removing `\` from a backslash followed by text without one leaves the text. */
  lemma {:induction false} RemoveLeadingBackslash(x: string)
    requires Avoids(x, {'\\'})
    ensures RemoveAll("\\" + x, "\\") == x
  {
    AvoidsFirstNotContains(x, "\\");
    assert "\\" + x == "" + "\\" + x;
    SplitOnce("", "\\", x);
    assert Join(["", x], "") == "" + "" + Join([x], "");
  }

  /** Removing `$` from `$x$`, where `x` has none, leaves `x`. */
  lemma {:induction false} RemoveDollars(x: string)
    requires Avoids(x, {'$'})
    ensures RemoveAll("$" + x + "$", "$") == x
  {
    var s := "$" + x + "$";
    AvoidsFirstNotContains(x, "$");
    SplitOnce(x, "$", "");
    assert s[1..] == x + "$" + "";
    assert OccursAt(s, "$", 0);
    assert Find(s, "$") == Some(0);
    assert Split(s, "$") == ["", x, ""];
    assert Join(["", x, ""], "") == "" + "" + Join([x, ""], "");
    assert Join([x, ""], "") == x + "" + Join([""], "");
  }

  lemma {:induction false} FractionPieces()
    ensures "\\boxed{\\frac{1}{2}}" == "" + BoxedOpen + ("\\" + "frac{1") + "}" + "{2}}"
    ensures Avoids("\\" + "frac{1", {'}'}) && Avoids("frac{1", {'\\', '$'}) && Trimmed("frac{1")
  {
  }

  /** `\boxed{\frac{1}{2}}`: the group stops at the first `}`, so the answer is `frac{1`. */
  lemma {:induction false} BoxedFractionExample()
    ensures ExtractBoxedAnswer("\\boxed{\\frac{1}{2}}") == Some("frac{1")
  {
    FractionPieces();
    ExtractBoxedOfGroup("", "\\" + "frac{1", "{2}}");
    RemoveLeadingBackslash("frac{1");
    RemoveCharOfAvoiding("frac{1", '$');
    StripOfTrimmed("frac{1");
  }

  lemma {:induction false} DollarPieces()
    ensures "\\boxed{$5$}" == "" + BoxedOpen + ("$" + "5" + "$") + "}" + ""
    ensures Avoids("$" + "5" + "$", {'}', '\\'}) && Avoids("5", {'$'}) && Trimmed("5")
  {
  }

  /** `\boxed{$5$}`: the dollar signs are removed. */
  lemma {:induction false} BoxedDollarExample()
    ensures ExtractBoxedAnswer("\\boxed{$5$}") == Some("5")
  {
    DollarPieces();
    ExtractBoxedOfGroup("", "$" + "5" + "$", "");
    RemoveCharOfAvoiding("$" + "5" + "$", '\\');
    RemoveDollars("5");
    StripOfTrimmed("5");
  }

  /**
   * Without a `\boxed{` group, the answer is the numeral that ends the
   * solution, when the text before it cannot join it.
   */
  lemma {:induction false} ExtractBoxedFallback(pre: string, sign: string, whole: string, frac: string)
    requires Avoids(pre, {'\\'}) && IsDecimalNumeral(sign, whole, frac)
    requires pre == "" || EndsMatches(pre[|pre| - 1])
    ensures ExtractBoxedAnswer(pre + (sign + whole + frac)) == Some(sign + whole + frac)
  {
    var t := sign + whole + frac;
    var s := pre + t;
    assert Avoids(t, {'\\'}) by {
      forall i | 0 <= i < |t| ensures t[i] != '\\' {
        if i < |sign| {
          assert t[i] == sign[i];
        } else if i < |sign| + |whole| {
          assert t[i] == whole[i - |sign|];
        } else if i > |sign| + |whole| {
          assert t[i] == frac[1..][i - |sign| - |whole| - 1];
        }
      }
    }
    AvoidsConcat(pre, t, {'\\'});
    assert s + "" == s;
    BoxedSkipsPlain(s, "", 0);
    LastDecimalTokenOfEnd(pre, sign, whole, frac);
  }

  /**
   * A solution whose first backslash opens `\boxed{answer}` gives back
   * `answer`, when it is already clean: non-empty, stripped, and free of
   * `\`, `$` and `}`.
   */
  lemma {:induction false} ExtractBoxedOfClean(pre: string, answer: string, post: string)
    requires Avoids(pre, {'\\'})
    requires |answer| > 0 && Trimmed(answer) && Avoids(answer, {'\\', '$', '}'})
    ensures ExtractBoxedAnswer(pre + BoxedOpen + answer + "}" + post) == Some(answer)
  {
    ExtractBoxedOfGroup(pre, answer, post);
    RemoveCharOfAvoiding(answer, '\\');
    RemoveCharOfAvoiding(answer, '$');
    StripOfTrimmed(answer);
  }

  /**
   * A MATH record as loaded, with the field names already resolved; a
   * missing field is None.
   */
  datatype MathItem = MathItem(problem: Option<string>, solution: Option<string>,
                               level: Option<string>, subject: Option<string>)

  datatype MathProblem = MathProblem(id: string, question: string, answer: string,
                                     expectedValue: Option<string>, level: string, subject: string)

  function OrElse(o: Option<string>, default: string): (r: string)
    ensures o.Some? ==> r == o.value
    ensures o.None? ==> r == default
  {
    match o case Some(v) => v case None => default
  }

  const TargetLevels: seq<string> := ["Level 3", "Level 4", "3", "4", "Medium", "medium"]

  /** `any(target in level for target in target_levels)` */
  predicate IsTargetLevel(level: string)
  {
    exists k :: 0 <= k < |TargetLevels| && Contains(level, TargetLevels[k])
  }

  /** The level filter's test; a record without a level has the level `''`. */
  predicate IsMedium(item: MathItem)
  {
    IsTargetLevel(OrElse(item.level, ""))
  }

  lemma LevelExamples()
    ensures IsTargetLevel("Level 3") && IsTargetLevel("Level 4") && IsTargetLevel("medium")
    ensures !IsTargetLevel("")
  {
    assert OccursAt("Level 3", TargetLevels[0], 0);
    assert OccursAt("Level 4", TargetLevels[1], 0);
    assert OccursAt("medium", TargetLevels[5], 0);
  }

  /** Every target contains a `3`, a `4` or an `m` in either case, so a level without them is dropped. */
  lemma LevelWithout(level: string)
    requires Avoids(level, {'3', '4', 'm', 'M'})
    ensures !IsTargetLevel(level)
  {
    forall k | 0 <= k < |TargetLevels| ensures !Contains(level, TargetLevels[k]) {
      var t := TargetLevels[k];
      var j := if k < 2 then 6 else 0;
      assert t[j] in {'3', '4', 'm', 'M'};
      forall i: nat | i + |t| <= |level| ensures !OccursAt(level, t, i) {
        assert level[i + j] != t[j];
      }
    }
  }

  /** The easiest and hardest levels are dropped. */
  lemma {:induction false} OtherLevelsDropped()
    ensures !IsTargetLevel("Level 1") && !IsTargetLevel("Level 5")
  {
    assert Avoids("Level 1", {'3', '4', 'm', 'M'}) && Avoids("Level 5", {'3', '4', 'm', 'M'});
    LevelWithout("Level 1");
    LevelWithout("Level 5");
  }

  /**
   * The loops that build `train_filtered` and `test_filtered`: exactly the
   * records at a target level, in their original order.
   */
  method FilterByLevel(split: seq<MathItem>) returns (filtered: seq<MathItem>)
    ensures filtered == Filter(split, IsMedium)
  {
    filtered := [];
    for i := 0 to |split|
      invariant filtered == Filter(split[..i], IsMedium)
    {
      var item := split[i];
      var level := OrElse(item.level, "");
      var keep := exists k :: 0 <= k < |TargetLevels| && Contains(level, TargetLevels[k]);
      if keep {
        filtered := filtered + [item];
      }
      assert split[..i + 1][..i] == split[..i];
    }
    assert split[..|split|] == split;
  }

  /** `int(n * 0.8)` */
  function SplitIndex(n: nat): (k: nat)
    ensures k <= n && 10 * k <= 8 * n < 10 * (k + 1)
  {
    n * 8 / 10
  }

  /**
   * The train and test lists before truncation: the filtered test split when
   * there is one, otherwise the first 80% of the filtered training records
   * for training and the rest for testing.
   */
  function MathSplits(trainSplit: seq<MathItem>, testSplit: Option<seq<MathItem>>): (r: (seq<MathItem>, seq<MathItem>))
    ensures testSplit.Some? ==> r == (Filter(trainSplit, IsMedium), Filter(testSplit.value, IsMedium))
    ensures testSplit.None? ==> (r.0 + r.1 == Filter(trainSplit, IsMedium)
      && |r.0| == SplitIndex(|Filter(trainSplit, IsMedium)|))
  {
    var filtered := Filter(trainSplit, IsMedium);
    match testSplit
    case Some(test) => (filtered, Filter(test, IsMedium))
    case None =>
      var k := SplitIndex(|filtered|);
      assert filtered[..k] + filtered[k..] == filtered;
      (filtered[..k], filtered[k..])
  }

  const MathPrefix: string := "math_"

  /** `format_item` of `prepare_math_dataset` */
  function FormatMath(item: MathItem, idx: nat): (p: MathProblem)
    ensures p.id == ProblemId(MathPrefix, idx)
    ensures p.question == OrElse(item.problem, "") && p.answer == OrElse(item.solution, "")
    ensures p.expectedValue == ExtractBoxedAnswer(OrElse(item.solution, ""))
    ensures p.level == OrElse(item.level, "Unknown") && p.subject == OrElse(item.subject, "Unknown")
  {
    var solution := OrElse(item.solution, "");
    MathProblem(ProblemId(MathPrefix, idx), OrElse(item.problem, ""), solution,
                ExtractBoxedAnswer(solution), OrElse(item.level, "Unknown"), OrElse(item.subject, "Unknown"))
  }

  /** `[format_item(item, idx + offset) for idx, item in enumerate(items)]` */
  function FormatMathAll(items: seq<MathItem>, offset: nat): seq<MathProblem>
  {
    seq(|items|, i requires 0 <= i < |items| => FormatMath(items[i], offset + i))
  }

  predicate Answered(p: MathProblem)
  {
    p.expectedValue.Some?
  }

  /**
   * `[p for p in formatted if p['expected_value'] is not None]`: every
   * survivor has an answer, and every answered problem survives, in order.
   */
  function DropUnanswered(ps: seq<MathProblem>): (r: seq<MathProblem>)
    ensures forall k :: 0 <= k < |r| ==> r[k].expectedValue.Some? && r[k] in ps
    ensures forall p :: p in ps && p.expectedValue.Some? ==> p in r
    ensures r == Filter(ps, Answered)
  {
    Filter(ps, Answered)
  }

  /**
   * `prepare_math_dataset` from the loaded splits: filter by level, split
   * when there is no test split, keep at most 200 and 100, number from 0 and
   * from 1000, and drop the problems without an answer.
   */
  method PrepareMath(trainSplit: seq<MathItem>, testSplit: Option<seq<MathItem>>)
      returns (train: seq<MathProblem>, test: seq<MathProblem>)
    ensures var (tr, te) := MathSplits(trainSplit, testSplit);
      train == DropUnanswered(FormatMathAll(Take(tr, 200), 0))
      && test == DropUnanswered(FormatMathAll(Take(te, 100), 1000))
  {
    var trainFiltered := FilterByLevel(trainSplit);
    var testFiltered: seq<MathItem>;
    match testSplit {
      case Some(split) =>
        testFiltered := FilterByLevel(split);
      case None =>
        var splitIdx := |trainFiltered| * 8 / 10;
        testFiltered := trainFiltered[splitIdx..];
        trainFiltered := trainFiltered[..splitIdx];
    }
    var trainData := Take(trainFiltered, 200);
    var testData := Take(testFiltered, 100);
    train := DropUnanswered(FormatMathAll(trainData, 0));
    test := DropUnanswered(FormatMathAll(testData, 1000));
  }

  /** `id` is `<prefix><i>` for some `i` in `[lo, hi)`. */
  predicate IdIn(id: string, prefix: string, lo: nat, hi: nat)
  {
    exists i :: lo <= i < hi && id == ProblemId(prefix, i)
  }

  /** The problems of `ps` carry the ids `<prefix><offset>`, `<prefix><offset + 1>`, ... */
  predicate NumberedFrom(ps: seq<MathProblem>, prefix: string, offset: nat)
  {
    forall i :: 0 <= i < |ps| ==> ps[i].id == ProblemId(prefix, offset + i)
  }

  lemma FormatMathAllNumbered(items: seq<MathItem>, offset: nat)
    ensures |FormatMathAll(items, offset)| == |items|
    ensures NumberedFrom(FormatMathAll(items, offset), MathPrefix, offset)
  {
  }

  /** Dropping the unanswered problems keeps only answered ones, and keeps their ids. */
  lemma DropKeepsIds(ps: seq<MathProblem>, prefix: string, offset: nat)
    requires NumberedFrom(ps, prefix, offset)
    ensures AnsweredWithin(DropUnanswered(ps), prefix, offset, offset + |ps|)
  {
    var r := DropUnanswered(ps);
    forall k | 0 <= k < |r| ensures IdIn(r[k].id, prefix, offset, offset + |ps|) {
      var i :| 0 <= i < |ps| && ps[i] == r[k];
      assert r[k].id == ProblemId(prefix, offset + i);
    }
  }

  /** Every problem of `ps` has an answer and an id `<prefix><i>` with `i` in `[lo, hi)`. */
  predicate AnsweredWithin(ps: seq<MathProblem>, prefix: string, lo: nat, hi: nat)
  {
    forall k :: 0 <= k < |ps| ==> ps[k].expectedValue.Some? && IdIn(ps[k].id, prefix, lo, hi)
  }

  /**
   * After numbering `items` from `offset` and dropping the unanswered ones,
   * every problem has an answer and an id within `|items|` of `offset`.
   */
  lemma NumberedAnswered(items: seq<MathItem>, offset: nat)
    ensures AnsweredWithin(DropUnanswered(FormatMathAll(items, offset)), MathPrefix, offset, offset + |items|)
  {
    FormatMathAllNumbered(items, offset);
    DropKeepsIds(FormatMathAll(items, offset), MathPrefix, offset);
  }

  lemma AnsweredWithinWider(ps: seq<MathProblem>, prefix: string, lo: nat, hi: nat, wider: nat)
    requires AnsweredWithin(ps, prefix, lo, hi) && hi <= wider
    ensures AnsweredWithin(ps, prefix, lo, wider)
  {
    forall k | 0 <= k < |ps| ensures IdIn(ps[k].id, prefix, lo, wider) {
      assert IdIn(ps[k].id, prefix, lo, hi);
      var i :| lo <= i < hi && ps[k].id == ProblemId(prefix, i);
    }
  }

  /** Ids from disjoint ranges differ. */
  lemma IdsApart(a: string, b: string, prefix: string, lo: nat, mid: nat, hi: nat)
    requires IdIn(a, prefix, lo, mid) && IdIn(b, prefix, mid, hi)
    ensures a != b
  {
    var i :| lo <= i < mid && a == ProblemId(prefix, i);
    var j :| mid <= j < hi && b == ProblemId(prefix, j);
    ProblemIdsDiffer(prefix, i, j);
  }

  /** Two lists numbered from disjoint ranges share no id. */
  lemma RangesApart(ps: seq<MathProblem>, qs: seq<MathProblem>, prefix: string, lo: nat, mid: nat, hi: nat)
    requires AnsweredWithin(ps, prefix, lo, mid) && AnsweredWithin(qs, prefix, mid, hi)
    ensures forall k, l :: 0 <= k < |ps| && 0 <= l < |qs| ==> ps[k].id != qs[l].id
  {
    forall k, l | 0 <= k < |ps| && 0 <= l < |qs| ensures ps[k].id != qs[l].id {
      IdsApart(ps[k].id, qs[l].id, prefix, lo, mid, hi);
    }
  }

  /** The prepared lists drawn from given train and test lists. */
  lemma PreparedFrom(tr: seq<MathItem>, te: seq<MathItem>)
    ensures var train := DropUnanswered(FormatMathAll(Take(tr, 200), 0));
      var test := DropUnanswered(FormatMathAll(Take(te, 100), 1000));
      AnsweredWithin(train, MathPrefix, 0, 200) && AnsweredWithin(test, MathPrefix, 1000, 1100)
      && (forall k, l :: 0 <= k < |train| && 0 <= l < |test| ==> train[k].id != test[l].id)
  {
    var trainItems := Take(tr, 200);
    var testItems := Take(te, 100);
    var train := DropUnanswered(FormatMathAll(trainItems, 0));
    var test := DropUnanswered(FormatMathAll(testItems, 1000));
    NumberedAnswered(trainItems, 0);
    NumberedAnswered(testItems, 1000);
    AnsweredWithinWider(train, MathPrefix, 0, |trainItems|, 200);
    AnsweredWithinWider(test, MathPrefix, 1000, 1000 + |testItems|, 1100);
    AnsweredWithinWider(train, MathPrefix, 0, 200, 1000);
    RangesApart(train, test, MathPrefix, 0, 1000, 1100);
  }

  /**
   * Every prepared MATH problem has an answer, training ids are `math_0` ..
   * `math_199` and test ids `math_1000` .. `math_1099`, so no id is shared.
   */
  lemma MathPrepared(trainSplit: seq<MathItem>, testSplit: Option<seq<MathItem>>)
    ensures var (tr, te) := MathSplits(trainSplit, testSplit);
      var train := DropUnanswered(FormatMathAll(Take(tr, 200), 0));
      var test := DropUnanswered(FormatMathAll(Take(te, 100), 1000));
      AnsweredWithin(train, MathPrefix, 0, 200) && AnsweredWithin(test, MathPrefix, 1000, 1100)
      && (forall k, l :: 0 <= k < |train| && 0 <= l < |test| ==> train[k].id != test[l].id)
  {
    var (tr, te) := MathSplits(trainSplit, testSplit);
    PreparedFrom(tr, te);
  }
}
